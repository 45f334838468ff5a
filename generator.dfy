/** The batch script that drafts the fact of a target date with a language
    model and stores it: the month-name table, the clean-up and validation
    of the model's reply, the existence check, the row it builds and the
    skip / abort / insert procedure over the table. The model's reply, the
    JSON parser and the store's answers are inputs. */
module Generator {
  import opened Wrappers
  import opened Text
  import Calendar
  import Route

  /** `getMonthName`: the Spanish name of month 1 to 12; `undefined` for
      any other number. */
  function GetMonthName(month: int): (name: Option<string>)
    ensures name.Some? <==> 1 <= month <= 12
    ensures name.Some? ==> Calendar.MonthNumber(name.value) == month
  {
    if 1 <= month <= 12 then
      Calendar.MonthNamesRoundTrip(month);
      Some(Calendar.MonthNames[month - 1])
    else None
  }

  /** A value as `JSON.parse` produces it. */
  datatype Json =
    | JNull
    | JBool(b: bool)
    | JNum(n: real)
    | JStr(s: string)
    | JArr(items: seq<Json>)
    | JObj(fields: map<string, Json>)

  /** `v.key`: the member of an object, `undefined` (None) otherwise. */
  function Member(v: Json, key: string): Option<Json> {
    if v.JObj? && key in v.fields then Some(v.fields[key]) else None
  }

  /** JavaScript truthiness of a possibly `undefined` value. */
  predicate Truthy(v: Option<Json>) {
    match v
    case None => false
    case Some(JNull) => false
    case Some(JBool(b)) => b
    case Some(JNum(n)) => n != 0.0
    case Some(JStr(s)) => s != ""
    case Some(_) => true
  }

  /** The first index at or after `from` whose line satisfies `p`
      (`Array.prototype.findIndex`, None for -1). */
  function FindFirst(lines: seq<string>, from: nat, p: string -> bool): (k: Option<nat>)
    ensures k.Some? ==> from <= k.value < |lines| && p(lines[k.value])
    decreases |lines| - from
  {
    if from >= |lines| then None
    else if p(lines[from]) then Some(from)
    else FindFirst(lines, from + 1, p)
  }

  /** No line before the one `FindFirst` reports satisfies `p`, and when it
      reports none, no line from `from` on does. */
  lemma {:induction false} FindFirstIsFirst(lines: seq<string>, from: nat, p: string -> bool)
    ensures var k := FindFirst(lines, from, p);
            forall j :: from <= j < (if k.Some? then k.value else |lines|) ==> !p(lines[j])
    decreases |lines| - from
  {
    if from < |lines| && !p(lines[from]) {
      FindFirstIsFirst(lines, from + 1, p);
    }
  }

  /** `FindFirst` reports `k` when `k` is the first index from `from` on
      whose line satisfies `p`. */
  lemma {:induction false} FindFirstAt(lines: seq<string>, from: nat, k: nat, p: string -> bool)
    requires from <= k < |lines| && p(lines[k])
    requires forall j :: from <= j < k ==> !p(lines[j])
    ensures FindFirst(lines, from, p) == Some(k)
    decreases k - from
  {
    if from < k {
      FindFirstAt(lines, from + 1, k, p);
    }
  }

  const Fence: string := "```"

  predicate OpensFence(line: string) {
    StartsWith(line, Fence)
  }

  predicate ClosesFence(line: string) {
    Trim(line) == Fence
  }

  /** The lines strictly between the first line satisfying `opens` and the
      first line after it satisfying `closes`, joined; None when either is
      missing. */
  function Between(lines: seq<string>, opens: string -> bool, closes: string -> bool): Option<string>
  {
    var start := FindFirst(lines, 0, opens);
    var end := FindFirst(lines, if start.Some? then start.value + 1 else 0, closes);
    if start.Some? && end.Some? then Some(Join(lines[start.value + 1..end.value], '\n'))
    else None
  }

  /** The lines between the opening and the closing code fence. */
  function BetweenFences(lines: seq<string>): Option<string> {
    Between(lines, OpensFence, ClosesFence)
  }

  /** The reply clean-up of `generateEphemeris`: trim; and when the text
      starts with a code fence and a later line is a closing fence, keep
      the trimmed lines strictly between the two. The result never has
      whitespace at either end. */
  function StripFences(content: string): (clean: string)
    ensures IsTrimmed(clean)
  {
    var trimmed := Trim(content);
    if StartsWith(trimmed, "```json") || StartsWith(trimmed, Fence) then
      var inner := BetweenFences(Split(trimmed, '\n'));
      if inner.Some? then Trim(inner.value) else trimmed
    else trimmed
  }

  /** Text that does not start with a fence is only trimmed. */
  lemma UnfencedIsTrimmed(content: string)
    requires !StartsWith(Trim(content), Fence)
    ensures StripFences(content) == Trim(content)
  {
    var trimmed := Trim(content);
    assert !StartsWith(trimmed, "```json");
  }

  lemma FenceIsTrimmed()
    ensures Trim(Fence) == Fence
  {
    TrimmedIsFixed(Fence);
  }

  /** The lines of a fenced block: the opening line, the body's lines, the
      closing fence. */
  lemma FencedBlockLines(head: string, body: string)
    requires '\n' !in head
    ensures Split(head + "\n" + body + "\n" + Fence, '\n') == [head] + Split(body, '\n') + [Fence]
  {
    var content := head + "\n" + body + "\n" + Fence;
    assert content == head + ['\n'] + (body + ['\n'] + Fence);
    SplitAround(head, body + ['\n'] + Fence, '\n');
    SplitAround(body, Fence, '\n');
    SplitWithoutSeparator(head, '\n');
    SplitWithoutSeparator(Fence, '\n');
  }

  /** Lines that open on the first one and first close again on line `k`
      yield the lines strictly between the two. */
  lemma BetweenAt(lines: seq<string>, k: nat, opens: string -> bool, closes: string -> bool)
    requires 1 <= k < |lines|
    requires opens(lines[0]) && closes(lines[k])
    requires forall j :: 1 <= j < k ==> !closes(lines[j])
    ensures Between(lines, opens, closes) == Some(Join(lines[1..k], '\n'))
  {
    assert FindFirst(lines, 0, opens) == Some(0);
    FindFirstAt(lines, 1, k, closes);
  }

  /** A block that opens on its first line and closes on its last line
      only yields the lines in between. */
  lemma BetweenOfBlock(head: string, middle: seq<string>, tail: string,
                       opens: string -> bool, closes: string -> bool)
    requires opens(head)
    requires forall i :: 0 <= i < |middle| ==> !closes(middle[i])
    requires closes(tail)
    ensures Between([head] + middle + [tail], opens, closes) == Some(Join(middle, '\n'))
  {
    var lines := [head] + middle + [tail];
    BlockLines(head, middle, tail, lines);
    BetweenAt(lines, |middle| + 1, opens, closes);
  }

  /** Where the parts of a block "head, middle lines, tail" sit. */
  lemma BlockLines(head: string, middle: seq<string>, tail: string, lines: seq<string>)
    requires lines == [head] + middle + [tail]
    ensures |lines| == |middle| + 2 && lines[0] == head && lines[|middle| + 1] == tail
    ensures lines[1..|middle| + 1] == middle
    ensures forall j :: 1 <= j < |middle| + 1 ==> lines[j] == middle[j - 1]
  {
  }

  /** A reply that is one fenced block: "```" and a tag such as "json" on
      the first line, then the body, then "```" on a line of its own. */
  function FencedBlock(tag: string, body: string): string {
    Fence + tag + "\n" + body + "\n" + Fence
  }

  lemma FencedBlockIsTrimmed(tag: string, body: string)
    ensures Trim(FencedBlock(tag, body)) == FencedBlock(tag, body)
  {
    var content := FencedBlock(tag, body);
    assert content[0] == '`';
    assert content[|content| - 1] == '`';
    TrimmedIsFixed(content);
  }

  lemma FencedBlockOpens(tag: string, body: string)
    ensures StartsWith(FencedBlock(tag, body), Fence)
  {
    assert FencedBlock(tag, body)[..3] == Fence;
  }

  lemma FenceHeadOpens(tag: string)
    ensures OpensFence(Fence + tag)
  {
    assert (Fence + tag)[..3] == Fence;
  }

  /** Trimmed text that opens with a fence is replaced by what lies between
      its fences, when there is a closing one. */
  lemma FencedTextIsCut(content: string)
    requires Trim(content) == content
    requires StartsWith(content, Fence)
    ensures StripFences(content) ==
              var inner := BetweenFences(Split(content, '\n'));
              if inner.Some? then Trim(inner.value) else content
  {
  }

  /** The lines of a fenced block between its fences are the body's lines. */
  lemma FencedBlockInner(tag: string, body: string)
    requires '\n' !in tag
    requires forall i :: 0 <= i < |Split(body, '\n')| ==> !ClosesFence(Split(body, '\n')[i])
    ensures BetweenFences(Split(FencedBlock(tag, body), '\n')) == Some(body)
  {
    var middle := Split(body, '\n');
    assert FencedBlock(tag, body) == (Fence + tag) + "\n" + body + "\n" + Fence;
    FencedBlockLines(Fence + tag, body);
    FenceHeadOpens(tag);
    FenceIsTrimmed();
    BetweenOfBlock(Fence + tag, middle, Fence, OpensFence, ClosesFence);
    JoinSplit(body, '\n');
  }

  /** A fenced block is replaced by its trimmed body, as long as the tag
      holds no newline and no line of the body is itself a closing fence. */
  lemma FencedBlockYieldsBody(tag: string, body: string)
    requires '\n' !in tag
    requires forall i :: 0 <= i < |Split(body, '\n')| ==> !ClosesFence(Split(body, '\n')[i])
    ensures StripFences(FencedBlock(tag, body)) == Trim(body)
  {
    FencedBlockIsTrimmed(tag, body);
    FencedBlockOpens(tag, body);
    FencedTextIsCut(FencedBlock(tag, body));
    FencedBlockInner(tag, body);
  }

  /** Text that starts with a fence has a first line that opens one. */
  lemma FirstLineOpensFence(text: string)
    requires StartsWith(text, Fence)
    ensures OpensFence(Split(text, '\n')[0])
  {
    SplitHeadKeepsPrefix(text, Fence, '\n');
  }

  /** A reply that opens with a fence is cut at its first closing fence:
      whatever follows that line is dropped, and the lines strictly between
      the two fences are kept, joined and trimmed. */
  lemma StripFencesCutsAtFirstClose(content: string, k: nat)
    requires StartsWith(Trim(content), Fence)
    requires 1 <= k < |Split(Trim(content), '\n')|
    requires ClosesFence(Split(Trim(content), '\n')[k])
    requires forall j :: 1 <= j < k ==> !ClosesFence(Split(Trim(content), '\n')[j])
    ensures StripFences(content) == Trim(Join(Split(Trim(content), '\n')[1..k], '\n'))
  {
    var lines := Split(Trim(content), '\n');
    FirstLineOpensFence(Trim(content));
    BetweenAt(lines, k, OpensFence, ClosesFence);
    assert BetweenFences(lines) == Some(Join(lines[1..k], '\n'));
  }

  /** Text whose lines after the first never close the fence is kept, trimmed. */
  lemma UnclosedFenceIsKept(content: string)
    requires forall i :: 1 <= i < |Split(Trim(content), '\n')| ==>
               !ClosesFence(Split(Trim(content), '\n')[i])
    ensures StripFences(content) == Trim(content)
  {
    var lines := Split(Trim(content), '\n');
    var start := FindFirst(lines, 0, OpensFence);
    if start.Some? {
      var end := FindFirst(lines, start.value + 1, ClosesFence);
      assert end.None?;
    }
    assert BetweenFences(lines).None?;
  }

  /** A drafted fact: the event text and the three historical fields as the
      model wrote them. */
  datatype Candidate = Candidate(event: string, historicalYear: Json, historicalMonth: Json,
                                 historicalDay: Json)

  /** The checks of `generateEphemeris` on the parsed reply (None when
      `JSON.parse` threw): a truthy `error` member is a refusal; `event` and
      the three historical members must be truthy; and `event` must be a
      string, since the script then takes its `substring`. */
  function Validate(parsed: Option<Json>): (c: Option<Candidate>)
    ensures c.Some? ==>
      parsed.Some? && parsed.value.JObj?
      && !Truthy(Member(parsed.value, "error"))
      && c.value.event != "" && Member(parsed.value, "event") == Some(JStr(c.value.event))
      && Member(parsed.value, "historicalYear") == Some(c.value.historicalYear)
      && Member(parsed.value, "historicalMonth") == Some(c.value.historicalMonth)
      && Member(parsed.value, "historicalDay") == Some(c.value.historicalDay)
      && Truthy(Some(c.value.historicalYear)) && Truthy(Some(c.value.historicalMonth))
      && Truthy(Some(c.value.historicalDay))
    ensures parsed.Some? && !Truthy(Member(parsed.value, "error"))
            && Member(parsed.value, "event").Some? && Member(parsed.value, "event").value.JStr?
            && Truthy(Member(parsed.value, "event"))
            && Truthy(Member(parsed.value, "historicalYear"))
            && Truthy(Member(parsed.value, "historicalMonth"))
            && Truthy(Member(parsed.value, "historicalDay"))
            ==> c.Some?
  {
    match parsed
    case None => None
    case Some(v) =>
      var event := Member(v, "event");
      var year := Member(v, "historicalYear");
      var month := Member(v, "historicalMonth");
      var day := Member(v, "historicalDay");
      if v == JNull then None
      else if Truthy(Member(v, "error")) then None
      else if !(Truthy(event) && Truthy(year) && Truthy(month) && Truthy(day)) then None
      else if !event.value.JStr? then None
      else Some(Candidate(event.value.s, year.value, month.value, day.value))
  }

  /** What the chat API answered: nothing (a transport error), or a status
      and the text of the first choice's message when there is one. */
  datatype ChatReply = Unreachable | ChatReply(status: int, content: Option<string>)

  /** `generateEphemeris` from the API's answer on: a 200 reply with
      non-empty content, cleaned, parsed and validated; null otherwise. */
  function Generate(reply: ChatReply, parse: string -> Option<Json>): (c: Option<Candidate>)
    ensures c.Some? ==>
      reply.ChatReply? && reply.status == 200 && reply.content.Some? && reply.content.value != ""
      && c == Validate(parse(StripFences(reply.content.value)))
    ensures reply.ChatReply? && reply.status == 200 && reply.content.Some? && reply.content.value != "" ==>
      c == Validate(parse(StripFences(reply.content.value)))
  {
    match reply
    case Unreachable => None
    case ChatReply(status, content) =>
      if status != 200 || content.None? || content.value == "" then None
      else Validate(parse(StripFences(content.value)))
  }

  /** What the store answered to `display_date=eq.<date>`: nothing, or a
      status and the body when it is an array of rows. */
  datatype LookupReply = LookupFailed | LookupReply(status: int, body: Option<seq<Route.Ephemeris>>)

  /** `checkExistingEphemeris`: the first row of a 200 reply whose body is a
      non-empty array; absent for everything else, errors included. */
  function CheckExisting(reply: LookupReply): (existing: Option<Route.Ephemeris>)
    ensures existing.Some? <==>
      reply.LookupReply? && reply.status == 200 && reply.body.Some? && |reply.body.value| > 0
    ensures existing.Some? ==> existing.value == reply.body.value[0]
  {
    if reply.LookupReply? && reply.status == 200 && reply.body.Some? && |reply.body.value| > 0
    then Some(reply.body.value[0])
    else None
  }

  /** The store's answer to the script's existence query. */
  function LookupOf(store: Route.Store, date: string): LookupReply {
    if date in store.failing then LookupFailed
    else LookupReply(200, Some(Route.ExactMatches(store.rows, date)))
  }

  /** The script's existence check and the site's lookup agree on every store. */
  lemma CheckAgreesWithLookup(store: Route.Store, date: string)
    ensures CheckExisting(LookupOf(store, date)) == Route.GetEphemerisForDate(store, date)
  {
  }

  /** The body `insertEphemeris` posts. */
  datatype NewRow = NewRow(day: int, month: int, year: int, event: string, displayDate: string,
                           historicalDay: Json, historicalMonth: Json, historicalYear: Json)

  /** `insertEphemeris`'s record: the target's day, month and year, its
      `YYYY-MM-DD` key, and the candidate's event and historical fields. */
  function BuildRecord(target: Calendar.Date, c: Candidate): (row: NewRow)
    requires 0 <= target.year <= 9999 && Calendar.IsValid(target)
    ensures Calendar.ParseIsoDate(row.displayDate) == Some(target)
    ensures row.day == target.day && row.month == target.month && row.year == target.year
    ensures row.event == c.event
    ensures row.historicalYear == c.historicalYear && row.historicalMonth == c.historicalMonth
            && row.historicalDay == c.historicalDay
  {
    Calendar.IsoDateRoundTrip(target);
    NewRow(target.day, target.month, target.year, c.event, Calendar.IsoDate(target),
           c.historicalDay, c.historicalMonth, c.historicalYear)
  }

  /** An integral JSON number, as an integer column holds it. */
  function AsInteger(v: Json): (i: Option<int>)
    ensures i.Some? ==> v == JNum(i.value as real)
  {
    if v.JNum? && v.n.Floor as real == v.n then Some(v.n.Floor) else None
  }

  /** The row the table stores for a posted body under the id it assigns;
      None when a historical field does not fit its integer column. */
  function ToStoredRow(row: NewRow, id: int): (stored: Option<Route.Ephemeris>)
    ensures stored.Some? <==>
      AsInteger(row.historicalDay).Some? && AsInteger(row.historicalMonth).Some?
      && AsInteger(row.historicalYear).Some?
    ensures stored.Some? ==>
      stored.value.id == id && stored.value.displayDate == Some(row.displayDate)
      && stored.value.day == row.day && stored.value.month == row.month
      && stored.value.year == row.year && stored.value.event == row.event
      && stored.value.historicalDay == AsInteger(row.historicalDay)
      && stored.value.historicalMonth == AsInteger(row.historicalMonth)
      && stored.value.historicalYear == AsInteger(row.historicalYear)
  {
    var day, month, year :=
      AsInteger(row.historicalDay), AsInteger(row.historicalMonth), AsInteger(row.historicalYear);
    if day.Some? && month.Some? && year.Some? then
      Some(Route.Ephemeris(id, row.day, row.month, row.year, row.event, Some(row.displayDate),
                           day, month, year, None, None))
    else None
  }

  /** The hosted table as the script sees it: its rows, the dates whose
      lookup fails, and the next id it assigns. */
  class ContentStore {
    var rows: seq<Route.Ephemeris>
    var failing: set<string>
    var nextId: int

    /** Every id the table has handed out is below `nextId`. */
    ghost predicate Valid()
      reads this
    {
      forall i :: 0 <= i < |rows| ==> rows[i].id < nextId
    }

    constructor (rows0: seq<Route.Ephemeris>, failing0: set<string>, nextId0: int)
      requires forall i :: 0 <= i < |rows0| ==> rows0[i].id < nextId0
      ensures Valid()
      ensures rows == rows0 && failing == failing0 && nextId == nextId0
    {
      rows, failing, nextId := rows0, failing0, nextId0;
    }

    function Snapshot(): Route.Store
      reads this
    {
      Route.Store(rows, failing)
    }

    /** The `POST`: when the table accepts the body it appends one row under
      a fresh id (the 201 reply) and hands it back; otherwise nothing
      changes. */
    method Insert(row: NewRow, accepts: bool) returns (stored: Option<Route.Ephemeris>)
      requires Valid()
      modifies this
      ensures Valid()
      ensures failing == old(failing)
      ensures stored.Some? <==> accepts && ToStoredRow(row, old(nextId)).Some?
      ensures stored.Some? ==>
        stored == ToStoredRow(row, old(nextId)) && rows == old(rows) + [stored.value]
        && nextId == old(nextId) + 1
      ensures stored.None? ==> rows == old(rows) && nextId == old(nextId)
      ensures forall i :: 0 <= i < |old(rows)| ==> rows[i].id != old(nextId)
    {
      stored := None;
      var candidate := ToStoredRow(row, nextId);
      if accepts && candidate.Some? {
        rows := rows + [candidate.value];
        nextId := nextId + 1;
        stored := candidate;
      }
    }
  }

  /** The outside answers one run depends on: the chat reply, the JSON
      parser, and whether the table accepts the insert. */
  datatype Services = Services(chat: ChatReply, parse: string -> Option<Json>, storeAccepts: bool)

  /** How a run ends: the date already had a fact (exit 0), no valid draft
      (exit 1), the insert was refused (exit 1), or one row inserted (exit 0). */
  datatype Exit = AlreadyPresent | GenerationFailed | InsertFailed | Inserted(row: Route.Ephemeris)

  function ExitCode(e: Exit): int {
    if e.GenerationFailed? || e.InsertFailed? then 1 else 0
  }

  /** The outcome of `main` for a target date, as a function of the store
      before the run. */
  function Planned(store: Route.Store, nextId: int, target: Calendar.Date, services: Services): Exit
    requires 0 <= target.year <= 9999 && Calendar.IsValid(target)
  {
    var displayDate := Calendar.IsoDate(target);
    if CheckExisting(LookupOf(store, displayDate)).Some? then AlreadyPresent
    else
      match Generate(services.chat, services.parse)
      case None => GenerationFailed
      case Some(c) =>
        var stored := ToStoredRow(BuildRecord(target, c), nextId);
        if services.storeAccepts && stored.Some? then Inserted(stored.value) else InsertFailed
  }

  /** `main`: skip when the date already has a fact, abort when no valid
      draft comes back, otherwise insert exactly one row. */
  method Run(store: ContentStore, target: Calendar.Date, services: Services) returns (exit: Exit)
    requires store.Valid() && 0 <= target.year <= 9999 && Calendar.IsValid(target)
    modifies store
    ensures store.Valid()
    ensures exit == Planned(old(store.Snapshot()), old(store.nextId), target, services)
    ensures store.rows == old(store.rows) + (if exit.Inserted? then [exit.row] else [])
    ensures store.nextId == old(store.nextId) + (if exit.Inserted? then 1 else 0)
    ensures store.failing == old(store.failing)
  {
    var displayDate := Calendar.IsoDate(target);
    var existing := CheckExisting(LookupOf(store.Snapshot(), displayDate));
    if existing.Some? {
      return AlreadyPresent;
    }
    var drafted := Generate(services.chat, services.parse);
    if drafted.None? {
      return GenerationFailed;
    }
    var record := BuildRecord(target, drafted.value);
    var stored := store.Insert(record, services.storeAccepts);
    if stored.None? {
      return InsertFailed;
    }
    exit := Inserted(stored.value);
  }

  /** At most one row per display date. */
  ghost predicate UniqueDates(rows: seq<Route.Ephemeris>) {
    forall i, j :: 0 <= i < j < |rows| && rows[i].displayDate.Some? ==>
      rows[i].displayDate != rows[j].displayDate
  }

  /** A reachable store that already holds a fact for the date makes the
      run stop before generating anything. */
  lemma ExistingFactSkips(store: Route.Store, nextId: int, target: Calendar.Date,
                          services: Services, i: int)
    requires 0 <= target.year <= 9999 && Calendar.IsValid(target)
    requires Calendar.IsoDate(target) !in store.failing
    requires 0 <= i < |store.rows| && store.rows[i].displayDate == Some(Calendar.IsoDate(target))
    ensures Planned(store, nextId, target, services) == AlreadyPresent
  {
    CheckAgreesWithLookup(store, Calendar.IsoDate(target));
  }

  /** An inserted row is the one built from the target date and the
      validated draft. */
  lemma InsertedRowCarriesDraft(store: Route.Store, nextId: int, target: Calendar.Date,
                                services: Services, row: Route.Ephemeris)
    requires 0 <= target.year <= 9999 && Calendar.IsValid(target)
    requires Planned(store, nextId, target, services) == Inserted(row)
    ensures Generate(services.chat, services.parse).Some?
    ensures var c := Generate(services.chat, services.parse).value;
      && row.id == nextId && row.event == c.event
      && row.displayDate == Some(Calendar.IsoDate(target))
      && row.day == target.day && row.month == target.month && row.year == target.year
      && row.historicalDay == AsInteger(c.historicalDay)
      && row.historicalMonth == AsInteger(c.historicalMonth)
      && row.historicalYear == AsInteger(c.historicalYear)
  {
  }

  /** A second run for the same date, against the store the first run left
      and whatever the chat answers, writes nothing. */
  lemma RerunSkips(store: Route.Store, nextId: int, target: Calendar.Date,
                   services: Services, again: Services, row: Route.Ephemeris)
    requires 0 <= target.year <= 9999 && Calendar.IsValid(target)
    requires Calendar.IsoDate(target) !in store.failing
    requires Planned(store, nextId, target, services) == Inserted(row)
    ensures Planned(Route.Store(store.rows + [row], store.failing), nextId + 1, target, again)
      == AlreadyPresent
  {
    InsertedRowCarriesDraft(store, nextId, target, services, row);
    var after := Route.Store(store.rows + [row], store.failing);
    ExistingFactSkips(after, nextId + 1, target, again, |store.rows|);
  }

  /** When the existence check gets through, a run keeps display dates unique. */
  lemma RunKeepsDatesUnique(store: Route.Store, nextId: int, target: Calendar.Date,
                            services: Services, row: Route.Ephemeris)
    requires 0 <= target.year <= 9999 && Calendar.IsValid(target)
    requires Calendar.IsoDate(target) !in store.failing && UniqueDates(store.rows)
    requires Planned(store, nextId, target, services) == Inserted(row)
    ensures UniqueDates(store.rows + [row])
  {
    var date := Calendar.IsoDate(target);
    InsertedRowCarriesDraft(store, nextId, target, services, row);
    CheckAgreesWithLookup(store, date);
    assert Route.GetEphemerisForDate(store, date).None?;
    var rows := store.rows + [row];
    forall i, j | 0 <= i < j < |rows| && rows[i].displayDate.Some?
      ensures rows[i].displayDate != rows[j].displayDate
    {
      if j == |store.rows| {
        assert rows[i] == store.rows[i];
      } else {
        assert rows[i] == store.rows[i] && rows[j] == store.rows[j];
      }
    }
  }

  /** On a date with no fact yet, a run whose draft is missing or invalid
      stops with exit code 1 and inserts nothing. */
  lemma GenerationFailureAborts(store: Route.Store, nextId: int, target: Calendar.Date,
                                services: Services)
    requires 0 <= target.year <= 9999 && Calendar.IsValid(target)
    requires Route.GetEphemerisForDate(store, Calendar.IsoDate(target)).None?
    requires Generate(services.chat, services.parse).None?
    ensures Planned(store, nextId, target, services) == GenerationFailed
    ensures ExitCode(Planned(store, nextId, target, services)) == 1
  {
    CheckAgreesWithLookup(store, Calendar.IsoDate(target));
  }

  /** When the existence check itself fails, the script carries on as if the
      date were free: a fact already filed under it gets a second row. */
  lemma FailedCheckDuplicates(store: Route.Store, nextId: int, target: Calendar.Date,
                              services: Services, i: int)
    requires 0 <= target.year <= 9999 && Calendar.IsValid(target)
    requires Calendar.IsoDate(target) in store.failing
    requires 0 <= i < |store.rows| && store.rows[i].displayDate == Some(Calendar.IsoDate(target))
    requires Generate(services.chat, services.parse).Some? && services.storeAccepts
    requires ToStoredRow(BuildRecord(target, Generate(services.chat, services.parse).value), nextId).Some?
    ensures Planned(store, nextId, target, services).Inserted?
    ensures !UniqueDates(store.rows + [Planned(store, nextId, target, services).row])
  {
    var row := Planned(store, nextId, target, services).row;
    InsertedRowCarriesDraft(store, nextId, target, services, row);
    var rows := store.rows + [row];
    assert rows[i] == store.rows[i] && rows[|store.rows|] == row;
  }

  /** After a run that inserted, the site's lookup for the date, on a
      reachable store, serves the new row. */
  lemma InsertedRowIsServed(store: Route.Store, nextId: int, target: Calendar.Date,
                            services: Services, row: Route.Ephemeris)
    requires 0 <= target.year <= 9999 && Calendar.IsValid(target)
    requires Calendar.IsoDate(target) !in store.failing
    requires Planned(store, nextId, target, services) == Inserted(row)
    ensures Route.GetEphemerisForDate(Route.Store(store.rows + [row], store.failing),
                                      Calendar.IsoDate(target)) == Some(row)
  {
    var date := Calendar.IsoDate(target);
    InsertedRowCarriesDraft(store, nextId, target, services, row);
    CheckAgreesWithLookup(store, date);
    var rows := store.rows + [row];
    assert Route.IsFirstMatch(rows, date, |store.rows|) by {
      forall j | 0 <= j < |store.rows| ensures rows[j].displayDate != Some(date) {
        assert rows[j] == store.rows[j];
      }
    }
    Route.LookupReturnsFirstMatch(Route.Store(rows, store.failing), date, |store.rows|);
  }
}
