/** The browser-side helpers: how a reply of the lookup API becomes "a
    fact" or "no fact", and how a row is formatted for display. */
module Client {
  import opened Wrappers
  import opened Route
  import Calendar

  /** The body of a reply: unreadable as JSON, or an envelope whose `data`
      member may be missing. */
  datatype Payload = Unreadable | Envelope(data: Option<Ephemeris>)

  /** What `fetch` gives back: a transport failure or an HTTP reply. */
  datatype Reply = NetworkError | HttpReply(status: int, payload: Payload)

  /** Why a reply yields no fact, as the helpers tell it apart in their logs. */
  datatype Failure = Transport | BadStatus(status: int) | BadBody

  datatype Outcome = Found(fact: Ephemeris) | NotFound | NoData | Failed(failure: Failure)

  /** `response.ok`. */
  predicate IsOk(status: int) {
    200 <= status <= 299
  }

  /** The helpers' decision, with the reason kept: 404 is "not found", any
      other non-OK status, a transport failure or an unreadable body is a
      caught error, an envelope without `data` is "no data". */
  function Classify(reply: Reply): (o: Outcome)
    ensures o.NotFound? <==> reply.HttpReply? && reply.status == 404
    ensures o.Failed? <==>
      reply.NetworkError?
      || (reply.HttpReply? && reply.status != 404 && !IsOk(reply.status))
      || (reply.HttpReply? && IsOk(reply.status) && reply.payload.Unreadable?)
    ensures o.NoData? <==> reply.HttpReply? && IsOk(reply.status) && reply.payload == Envelope(None)
    ensures o.Found? ==> reply == HttpReply(reply.status, Envelope(Some(o.fact)))
  {
    match reply
    case NetworkError => Failed(Transport)
    case HttpReply(status, payload) =>
      if !IsOk(status) then
        if status == 404 then NotFound else Failed(BadStatus(status))
      else
        match payload
        case Unreadable => Failed(BadBody)
        case Envelope(data) => if data.None? then NoData else Found(data.value)
  }

  /** `getEphemerisForDate` and `getTodayEphemeris` (which differ only in
      the URL they fetch): the `data` of a successful envelope, unmodified,
      and null for every other reply. */
  function Interpret(reply: Reply): (r: Option<Ephemeris>)
    ensures r.Some? <==> reply.HttpReply? && IsOk(reply.status) && reply.payload.Envelope?
                         && reply.payload.data.Some?
    ensures r.Some? ==> r == reply.payload.data
  {
    match Classify(reply)
    case Found(fact) => Some(fact)
    case _ => None
  }

  /** The reply the browser receives for a response of the route handler. */
  function Transmit(resp: Response): Reply {
    HttpReply(resp.status, Envelope(match resp.body
                                    case DataBody(row) => Some(row)
                                    case ErrorBody(_) => None))
  }

  /** Asking the API for a date gives the browser exactly the server's
      lookup, and an absent row is "not found", not an error. An empty date
      reaches the server as an empty parameter and takes the "today" path. */
  lemma ClientSeesDateLookup(date: string, store: Store, today: string)
    ensures Interpret(Transmit(Get(Request(Some(date)), store, today)))
      == if date == "" then GetTodayEphemeris(store, today) else GetEphemerisForDate(store, date)
    ensures date != "" && GetEphemerisForDate(store, date).None? ==>
      Classify(Transmit(Get(Request(Some(date)), store, today))) == NotFound
  {
  }

  /** Asking the API for today gives the browser the server's "today, else
      the fallback date" row. */
  lemma ClientSeesTodayLookup(store: Store, today: string)
    ensures Interpret(Transmit(Get(Request(None), store, today))) == GetTodayEphemeris(store, today)
    ensures GetTodayEphemeris(store, today).None? ==>
      Classify(Transmit(Get(Request(None), store, today))) == NotFound
  {
  }

  /** `a || b` on a nullable number: the first one unless it is null or 0. */
  function Effective(historical: Option<int>, filed: int): int {
    if historical.Some? && historical.value != 0 then historical.value else filed
  }

  /** `new Date(y, m, d)` reads a year from 0 to 99 as 1900 to 1999. */
  function JsYear(y: int): int {
    if 0 <= y <= 99 then 1900 + y else y
  }

  function EffectiveDate(e: Ephemeris): Calendar.Date {
    Calendar.Date(JsYear(Effective(e.historicalYear, e.year)),
                  Effective(e.historicalMonth, e.month),
                  Effective(e.historicalDay, e.day))
  }

  /** The whole years JavaScript's `Date` can hold: its time value is
      limited to 8.64e15 milliseconds either side of 1970, which ends in
      April of -271821 and in September of 275760; those two partial years
      are left outside. */
  const MinDateYear: int := -271820
  const MaxDateYear: int := 275759

  /** A row whose effective day exists in the calendar, so that JavaScript's
      `Date` does not roll it over into another month, and whose year is
      one `Date` can represent, so that it is not an invalid date. */
  predicate CanFormat(e: Ephemeris) {
    && Calendar.IsValid(EffectiveDate(e))
    && MinDateYear <= EffectiveDate(e).year <= MaxDateYear
  }

  datatype Display = Display(date: string, year: int, event: string)

  /** `formatEphemerisForDisplay`: year, month and day are each the
      historical value when it is set and non-zero, else the filed one; the
      date reads back as the effective day and month; the event is kept. */
  function FormatForDisplay(e: Ephemeris): (f: Display)
    requires CanFormat(e)
    ensures e.historicalYear.Some? && e.historicalYear.value != 0 ==> f.year == e.historicalYear.value
    ensures e.historicalYear.None? || e.historicalYear.value == 0 ==> f.year == e.year
    ensures Calendar.ReadLongDate(f.date)
      == Some((Effective(e.historicalDay, e.day), Effective(e.historicalMonth, e.month)))
    ensures f.event == e.event
  {
    var d := EffectiveDate(e);
    Calendar.LongDateRoundTrip(d.day, d.month);
    Display(Calendar.LongDate(d.day, d.month), Effective(e.historicalYear, e.year), e.event)
  }

  /** The date text depends on the effective month and day only: rows that
      agree on those render the same date whatever their years. */
  lemma DateIgnoresYear(e1: Ephemeris, e2: Ephemeris)
    requires CanFormat(e1) && CanFormat(e2)
    requires Effective(e1.historicalMonth, e1.month) == Effective(e2.historicalMonth, e2.month)
    requires Effective(e1.historicalDay, e1.day) == Effective(e2.historicalDay, e2.day)
    ensures FormatForDisplay(e1).date == FormatForDisplay(e2).date
  {
  }

  /** A fact filed on 25 June 2025 about 25 August 1991. */
  const LinuxRow: Ephemeris :=
    Ephemeris(1, 25, 6, 2025, "X", Some("2025-06-25"), Some(25), Some(8), Some(1991), None, None)

  /** Looking that row up by its filing date and formatting it shows the
      historical date: "25 de agosto" of 1991. */
  lemma LinuxRowShowsHistoricalDate(today: string)
    ensures Interpret(Transmit(Get(Request(Some("2025-06-25")), Store([LinuxRow], {}), today)))
      == Some(LinuxRow)
    ensures FormatForDisplay(LinuxRow) == Display("25 de agosto", 1991, "X")
  {
    assert Route.IsFirstMatch([LinuxRow], "2025-06-25", 0);
    LookupReturnsFirstMatch(Store([LinuxRow], {}), "2025-06-25", 0);
    assert Calendar.NatToString(25) == "25";
  }
}
