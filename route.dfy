/** The server-side fact lookup: the `Ephemeris` row, the exact-match query
    on `display_date`, the "today, else the fixed test date" policy and the
    `GET` handler's status dispatch. The hosted table is a value (`Store`),
    so no request can change it. */
module Route {
  import opened Wrappers

  /** One row of the `ephemerides` table. */
  datatype Ephemeris = Ephemeris(
    id: int,
    day: int,
    month: int,
    year: int,
    event: string,
    displayDate: Option<string>,
    historicalDay: Option<int>,
    historicalMonth: Option<int>,
    historicalYear: Option<int>,
    createdAt: Option<string>,
    updatedAt: Option<string>)

  /** The table's rows in the order the store returns them, and the display
      dates whose query fails (network error, non-OK status or an
      unreadable body). */
  datatype Store = Store(rows: seq<Ephemeris>, failing: set<string>)

  /** The date the "today" path falls back to. */
  const FallbackDate: string := "2025-06-25"

  /** The rows the store's `display_date=eq.<date>` filter selects, in table order. */
  function ExactMatches(rows: seq<Ephemeris>, date: string): (m: seq<Ephemeris>)
    ensures |m| <= |rows|
    ensures forall r :: r in m ==> r in rows && r.displayDate == Some(date)
    ensures forall r :: r in rows && r.displayDate == Some(date) ==> r in m
  {
    if rows == [] then []
    else if rows[0].displayDate == Some(date) then [rows[0]] + ExactMatches(rows[1..], date)
    else ExactMatches(rows[1..], date)
  }

  /** Row `i` is the first row filed under `date`. */
  ghost predicate IsFirstMatch(rows: seq<Ephemeris>, date: string, i: int) {
    0 <= i < |rows| && rows[i].displayDate == Some(date)
    && forall j :: 0 <= j < i ==> rows[j].displayDate != Some(date)
  }

  /** The filter keeps the table order: its first row is the table's first
      row with that date. */
  lemma {:induction false} ExactMatchesStartsAtFirstMatch(rows: seq<Ephemeris>, date: string, i: int)
    requires IsFirstMatch(rows, date, i)
    ensures ExactMatches(rows, date) != [] && ExactMatches(rows, date)[0] == rows[i]
    decreases |rows|
  {
    if i > 0 {
      assert IsFirstMatch(rows[1..], date, i - 1);
      ExactMatchesStartsAtFirstMatch(rows[1..], date, i - 1);
    }
  }

  /** What one query for `date` answers. */
  datatype QueryResult = QueryFailed | Rows(found: seq<Ephemeris>)

  function Query(store: Store, date: string): QueryResult {
    if date in store.failing then QueryFailed else Rows(ExactMatches(store.rows, date))
  }

  /** `getEphemerisForDate`: the first row filed under exactly `date`, or
      nothing when no row matches or the store fails. */
  function GetEphemerisForDate(store: Store, date: string): (r: Option<Ephemeris>)
    ensures r.Some? ==> r.value in store.rows && r.value.displayDate == Some(date)
    ensures date in store.failing ==> r.None?
    ensures date !in store.failing ==>
      (r.None? <==> forall i :: 0 <= i < |store.rows| ==> store.rows[i].displayDate != Some(date))
  {
    match Query(store, date)
    case QueryFailed => None
    case Rows(found) => if |found| == 0 then None else Some(found[0])
  }

  /** With a working store, the lookup answers the first matching row, also
      when several rows share the date. */
  lemma LookupReturnsFirstMatch(store: Store, date: string, i: int)
    requires date !in store.failing && IsFirstMatch(store.rows, date, i)
    ensures GetEphemerisForDate(store, date) == Some(store.rows[i])
  {
    ExactMatchesStartsAtFirstMatch(store.rows, date, i);
  }

  /** `getTodayEphemeris`: today's row when there is one, else the row of
      the fixed fallback date. */
  function GetTodayEphemeris(store: Store, today: string): (r: Option<Ephemeris>)
    ensures GetEphemerisForDate(store, today).Some? ==> r == GetEphemerisForDate(store, today)
    ensures GetEphemerisForDate(store, today).None? ==> r == GetEphemerisForDate(store, FallbackDate)
    ensures r.None? <==>
      GetEphemerisForDate(store, today).None? && GetEphemerisForDate(store, FallbackDate).None?
    ensures r.Some? ==>
      r.value in store.rows
      && (r.value.displayDate == Some(today) || r.value.displayDate == Some(FallbackDate))
  {
    var result := GetEphemerisForDate(store, today);
    if result.None? then GetEphemerisForDate(store, FallbackDate) else result
  }

  /** An incoming request: its `date` search parameter, or a URL that
      cannot be parsed. */
  datatype Request = Request(dateParam: Option<string>) | MalformedUrl

  datatype Body = DataBody(data: Ephemeris) | ErrorBody(error: string)

  datatype Response = Response(status: int, body: Body)

  const NoFactForDate: string := "No se encontró efeméride para la fecha especificada"
  const NoFactForToday: string := "No se encontró efeméride para hoy"
  const InternalError: string := "Error interno del servidor"

  /** The handler takes the date path for a non-empty `date` parameter. */
  predicate HasDate(req: Request)
    requires req.Request?
  {
    req.dateParam.Some? && req.dateParam.value != ""
  }

  /** The `GET` handler: 200 with the row, 404 when the lookup finds
      nothing, 500 when the request itself cannot be read. */
  function Get(req: Request, store: Store, today: string): (resp: Response)
    ensures resp.status == 200 || resp.status == 404 || resp.status == 500
    ensures resp.status == 200 <==> resp.body.DataBody?
    // only an unreadable request gives 500: store failures come out as 404
    ensures resp.status == 500 <==> req.MalformedUrl?
    ensures req.Request? && HasDate(req) ==>
      match GetEphemerisForDate(store, req.dateParam.value)
      case Some(row) => resp == Response(200, DataBody(row))
      case None => resp == Response(404, ErrorBody(NoFactForDate))
    ensures req.Request? && !HasDate(req) ==>
      match GetTodayEphemeris(store, today)
      case Some(row) => resp == Response(200, DataBody(row))
      case None => resp == Response(404, ErrorBody(NoFactForToday))
  {
    match req
    case MalformedUrl => Response(500, ErrorBody(InternalError))
    case Request(date) =>
      if date.Some? && date.value != "" then
        match GetEphemerisForDate(store, date.value)
        case None => Response(404, ErrorBody(NoFactForDate))
        case Some(row) => Response(200, DataBody(row))
      else
        match GetTodayEphemeris(store, today)
        case None => Response(404, ErrorBody(NoFactForToday))
        case Some(row) => Response(200, DataBody(row))
  }

  /** A request with a date never consults today's date or the fallback
      date: its answer is the same whatever today is. */
  lemma DateRequestIgnoresToday(d: string, store: Store, today1: string, today2: string)
    requires d != ""
    ensures Get(Request(Some(d)), store, today1) == Get(Request(Some(d)), store, today2)
  {
  }

  /** A request whose date is not filed answers 404 even when the fallback
      date has a row. */
  lemma DateRequestHasNoFallback(d: string, store: Store, today: string)
    requires d != "" && d !in store.failing
    requires forall i :: 0 <= i < |store.rows| ==> store.rows[i].displayDate != Some(d)
    ensures Get(Request(Some(d)), store, today).status == 404
  {
  }

  /** An empty `date` parameter is treated as no parameter. */
  lemma EmptyDateMeansToday(store: Store, today: string)
    ensures Get(Request(Some("")), store, today) == Get(Request(None), store, today)
  {
  }

  /** A store whose every query fails makes each readable request a 404,
      never a 500. */
  lemma FailingStoreIsNotFound(req: Request, store: Store, today: string)
    requires req.Request?
    requires today in store.failing && FallbackDate in store.failing
    requires req.dateParam.Some? ==> req.dateParam.value in store.failing
    ensures Get(req, store, today).status == 404
  {
  }
}
