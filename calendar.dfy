/** Calendar dates and the two renderings the core uses: the `YYYY-MM-DD`
    form of `Date.prototype.toISOString` (the store's `display_date` key)
    and the es-ES "day + long month" form ("25 de agosto"). */
module Calendar {
  import opened Wrappers
  import opened Text

  /** The Spanish month names, lower case, January first. */
  const MonthNames: seq<string> := [
    "enero", "febrero", "marzo", "abril", "mayo", "junio",
    "julio", "agosto", "septiembre", "octubre", "noviembre", "diciembre"
  ]

  /** The month number a Spanish month name stands for, 0 for anything else. */
  function MonthNumber(name: string): int {
    if name == "enero" then 1
    else if name == "febrero" then 2
    else if name == "marzo" then 3
    else if name == "abril" then 4
    else if name == "mayo" then 5
    else if name == "junio" then 6
    else if name == "julio" then 7
    else if name == "agosto" then 8
    else if name == "septiembre" then 9
    else if name == "octubre" then 10
    else if name == "noviembre" then 11
    else if name == "diciembre" then 12
    else 0
  }

  /** The table names each month by a word that reads back as that month. */
  lemma MonthNamesRoundTrip(m: int)
    requires 1 <= m <= 12
    ensures MonthNumber(MonthNames[m - 1]) == m
  {
  }

  /** Only the twelve names stand for a month, each for its own. */
  lemma MonthNumberNames(name: string)
    requires MonthNumber(name) != 0
    ensures 1 <= MonthNumber(name) <= 12 && MonthNames[MonthNumber(name) - 1] == name
  {
  }

  /** Proleptic Gregorian leap years, as JavaScript's `Date` counts them. */
  predicate IsLeapYear(y: int) {
    y % 4 == 0 && (y % 100 != 0 || y % 400 == 0)
  }

  function DaysInMonth(y: int, m: int): (n: int)
    requires 1 <= m <= 12
    ensures 28 <= n <= 31
  {
    if m == 2 then (if IsLeapYear(y) then 29 else 28)
    else if m == 4 || m == 6 || m == 9 || m == 11 then 30
    else 31
  }

  datatype Date = Date(year: int, month: int, day: int)

  /** A day that exists in the calendar. */
  predicate IsValid(d: Date) {
    1 <= d.month <= 12 && 1 <= d.day <= DaysInMonth(d.year, d.month)
  }

  predicate IsDigit(c: char) {
    '0' <= c <= '9'
  }

  predicate AllDigits(s: string) {
    forall i :: 0 <= i < |s| ==> IsDigit(s[i])
  }

  function DigitChar(d: int): (c: char)
    requires 0 <= d < 10
    ensures IsDigit(c)
  {
    (48 + d) as char
  }

  function DigitValue(c: char): (d: nat)
    requires IsDigit(c)
    ensures d < 10 && DigitChar(d) == c
  {
    c as int - 48
  }

  /** The number a string of decimal digits denotes. */
  function DecimalValue(s: string): nat
    requires AllDigits(s)
  {
    if s == [] then 0 else DecimalValue(s[..|s| - 1]) * 10 + DigitValue(s[|s| - 1])
  }

  /** The shortest decimal rendering of `n`, as JavaScript prints a
      non-negative integer. */
  function NatToString(n: nat): (s: string)
    ensures |s| >= 1 && AllDigits(s)
  {
    if n < 10 then [DigitChar(n)] else NatToString(n / 10) + [DigitChar(n % 10)]
  }

  lemma {:induction false} NatToStringRoundTrip(n: nat)
    ensures DecimalValue(NatToString(n)) == n
  {
    var s := NatToString(n);
    if n < 10 {
      assert s[..|s| - 1] == [];
    } else {
      assert s[..|s| - 1] == NatToString(n / 10);
      NatToStringRoundTrip(n / 10);
    }
  }

  /** A decimal numeral as JavaScript prints one: at least one digit, and
      no leading zero unless the number is 0 itself. */
  predicate IsNumeral(s: string) {
    |s| >= 1 && AllDigits(s) && (|s| == 1 || s[0] != '0')
  }

  /** A positive number is printed without a leading zero. */
  lemma {:induction false} NatToStringLeads(n: nat)
    requires n >= 1
    ensures NatToString(n)[0] != '0'
  {
    if n >= 10 {
      NatToStringLeads(n / 10);
    }
  }

  lemma NatToStringIsNumeral(n: nat)
    ensures IsNumeral(NatToString(n))
  {
    if n >= 1 {
      NatToStringLeads(n);
    }
  }

  /** A numeral is the printed form of the number it denotes: there is no
      other way to write a number without leading zeros. */
  lemma {:induction false} NumeralIsNatToString(s: string)
    requires IsNumeral(s)
    ensures NatToString(DecimalValue(s)) == s
    decreases |s|
  {
    var c := s[|s| - 1];
    if |s| > 1 {
      var p := s[..|s| - 1];
      NumeralIsNatToString(p);
      var v := DecimalValue(p);
      assert s[0] == p[0];
      var n := DecimalValue(s);
      assert n == v * 10 + DigitValue(c);
      assert n / 10 == v && n % 10 == DigitValue(c);
      assert s == p + [c];
    }
  }

  /** How JavaScript prints an integer: a minus sign before a negative one. */
  function IntToString(i: int): string {
    if i < 0 then "-" + NatToString(-i) else NatToString(i)
  }

  function Pow10(w: nat): (p: nat)
    ensures p >= 1
  {
    if w == 0 then 1 else 10 * Pow10(w - 1)
  }

  /** `n` in exactly `w` digits, zero-padded on the left. */
  function Fixed(n: nat, w: nat): (s: string)
    ensures |s| == w && AllDigits(s)
  {
    if w == 0 then [] else Fixed(n / 10, w - 1) + [DigitChar(n % 10)]
  }

  lemma {:induction false} FixedRoundTrip(n: nat, w: nat)
    requires n < Pow10(w)
    ensures DecimalValue(Fixed(n, w)) == n
  {
    if w > 0 {
      var s := Fixed(n, w);
      assert s[..|s| - 1] == Fixed(n / 10, w - 1);
      FixedRoundTrip(n / 10, w - 1);
    }
  }

  /** The `YYYY-MM-DD` part of `toISOString()` for a date of years 0 to 9999. */
  function IsoDate(d: Date): (s: string)
    requires 0 <= d.year <= 9999 && 1 <= d.month <= 12 && 1 <= d.day <= 31
    ensures |s| == 10 && s[4] == '-' && s[7] == '-'
  {
    Fixed(d.year, 4) + "-" + Fixed(d.month, 2) + "-" + Fixed(d.day, 2)
  }

  /** Reads a `YYYY-MM-DD` string back into its three numbers. */
  function ParseIsoDate(s: string): Option<Date> {
    if |s| == 10 && s[4] == '-' && s[7] == '-'
       && AllDigits(s[..4]) && AllDigits(s[5..7]) && AllDigits(s[8..])
    then Some(Date(DecimalValue(s[..4]), DecimalValue(s[5..7]), DecimalValue(s[8..])))
    else None
  }

  /** The ISO rendering loses nothing: it reads back as the same date, so
      two different target dates never share a `display_date`. */
  lemma IsoDateRoundTrip(d: Date)
    requires 0 <= d.year <= 9999 && IsValid(d)
    ensures ParseIsoDate(IsoDate(d)) == Some(d)
  {
    var y, m, dd := Fixed(d.year, 4), Fixed(d.month, 2), Fixed(d.day, 2);
    var s := IsoDate(d);
    assert s[..4] == y && s[5..7] == m && s[8..] == dd;
    FixedRoundTrip(d.year, 4);
    FixedRoundTrip(d.month, 2);
    FixedRoundTrip(d.day, 2);
  }

  lemma IsoDateInjective(d1: Date, d2: Date)
    requires 0 <= d1.year <= 9999 && IsValid(d1)
    requires 0 <= d2.year <= 9999 && IsValid(d2)
    requires IsoDate(d1) == IsoDate(d2)
    ensures d1 == d2
  {
    IsoDateRoundTrip(d1);
    IsoDateRoundTrip(d2);
  }

  /** `toLocaleDateString("es-ES", {day: "numeric", month: "long"})` of a
      day of a month: "25 de agosto". */
  function LongDate(day: nat, month: int): string
    requires 1 <= month <= 12
  {
    NatToString(day) + " de " + MonthNames[month - 1]
  }

  /** The number of leading decimal digits of `s`. */
  function LeadingDigits(s: string): (k: nat)
    ensures k <= |s| && AllDigits(s[..k])
    ensures k < |s| ==> !IsDigit(s[k])
  {
    if s != [] && IsDigit(s[0]) then
      var k := LeadingDigits(s[1..]) + 1;
      assert s[..k] == [s[0]] + s[1..][..k - 1];
      k
    else 0
  }

  /** Reads "25 de agosto" back as day 25 of month 8; a day written with
      a leading zero ("025 de agosto") is not the es-ES form and is refused. */
  function ReadLongDate(s: string): Option<(int, int)> {
    var k := LeadingDigits(s);
    var rest := s[k..];
    if 0 < k && (k == 1 || s[0] != '0') && StartsWith(rest, " de ") && MonthNumber(rest[4..]) != 0
    then Some((DecimalValue(s[..k]), MonthNumber(rest[4..])))
    else None
  }

  lemma {:induction false} LeadingDigitsOfNumber(a: string, b: string)
    requires AllDigits(a)
    requires b == [] || !IsDigit(b[0])
    ensures LeadingDigits(a + b) == |a|
    decreases |a|
  {
    if a != [] {
      assert (a + b)[1..] == a[1..] + b;
      LeadingDigitsOfNumber(a[1..], b);
    }
  }

  lemma ReadLongDateOf(digits: string, name: string)
    requires IsNumeral(digits) && MonthNumber(name) != 0
    ensures ReadLongDate(digits + " de " + name) == Some((DecimalValue(digits), MonthNumber(name)))
  {
    var s := digits + " de " + name;
    LeadingDigitsOfNumber(digits, " de " + name);
    assert s == digits + (" de " + name);
    assert s[..|digits|] == digits;
    assert s[|digits|..] == " de " + name;
    assert s[|digits|..][4..] == name;
  }

  /** The es-ES day-and-month rendering loses nothing: it reads back as the
      day and month it was made from. */
  lemma LongDateRoundTrip(day: nat, month: int)
    requires 1 <= month <= 12
    ensures ReadLongDate(LongDate(day, month)) == Some((day, month))
  {
    MonthNamesRoundTrip(month);
    NatToStringRoundTrip(day);
    NatToStringIsNumeral(day);
    ReadLongDateOf(NatToString(day), MonthNames[month - 1]);
  }

  /** A zero-padded day is not the es-ES form. */
  lemma PaddedDayIsRefused()
    ensures ReadLongDate("025 de agosto") == None
  {
    var s := "025 de agosto";
    assert s == "025" + " de agosto";
    LeadingDigitsOfNumber("025", " de agosto");
    assert s[0] == '0';
  }

  /** The other direction: whatever reads back as a day and a month is the
      es-ES rendering of exactly that day and month, so the rendering is
      pinned by what it reads back as. */
  lemma ReadLongDateOnlyLongDates(s: string)
    requires ReadLongDate(s).Some?
    ensures var (day, month) := ReadLongDate(s).value;
            day >= 0 && 1 <= month <= 12 && s == LongDate(day, month)
  {
    var k := LeadingDigits(s);
    var rest := s[k..];
    var name := rest[4..];
    NumeralIsNatToString(s[..k]);
    MonthNumberNames(name);
    assert rest == " de " + name;
    assert s == s[..k] + rest;
  }
}
