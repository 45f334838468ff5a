# Programming ephemeris of the day — a Dafny model

The site shows one "programming ephemeris" (a dated fact from the history of
software) per day. A server route looks the fact up by its `display_date`
(`YYYY-MM-DD`) in a hosted table, falling back to a fixed test date; browser
helpers turn the route's reply into "a fact" or "no fact" and format it as
"25 de agosto" plus a year; the home page types the text out character by
character, offers a share-on-X link and a small fake terminal; and a daily
script asks a chat model for tomorrow's fact, cleans and validates its
answer, and inserts it unless the date already has one.

The model is split by source file:

| module | file | models |
|---|---|---|
| `Text` | `text.dfy` | the JavaScript string built-ins the core uses: `trim`, `split`/`join` on `'\n'`, `startsWith`, `includes`, ASCII `toLowerCase`, `slice` with negative indices, and `length` in UTF-16 code units |
| `Calendar` | `calendar.dfy` | Spanish month names, calendar validity, `toISOString().split('T')[0]`, the `es-ES` "day de month" text |
| `Route` | `route.dfy` | `app/api/ephemerides/route.ts`: the row, the exact-match lookup, the today/fallback rule and the `GET` status dispatch |
| `Client` | `client.dfy` | `lib/ephemerides.ts`: reply classification and `formatEphemerisForDisplay` |
| `Browser` | `browser.dfy` | `lib/browser-utils.ts`: OS detection and the close-tab shortcut |
| `Generator` | `generator.dfy` | `scripts/generate-daily-ephemeris.js`: month names, fence stripping, validation, the existence check, the insert record and `main`'s flow over a table object |
| `Page` | `page.dfy` | `app/page.tsx`: the component state as an object, its effects and handlers, the share text and the panel choice |

The hosted table is a `Route.Store` value (rows in table order plus the
dates whose queries fail) on the read side, and a `Generator.ContentStore`
object whose `Insert` appends a row on the write side. The current date,
the chat model's answer, the JSON parser and the browser's description
of itself are parameters.

## Model

| member | source | states |
|---|---|---|
| Route.ExactMatches | app/api/ephemerides/route.ts:59 | the `display_date=eq.<date>` filter keeps exactly the rows filed under that date, all of them and nothing else |
| Route.ExactMatchesStartsAtFirstMatch | app/api/ephemerides/route.ts:59-68 | the filter keeps table order: its first row is the table's first row with that date |
| Route.GetEphemerisForDate | app/api/ephemerides/route.ts:55-75 | the result is a stored row filed under the date; a failing query gives null; with a working store, null exactly when no row has that date |
| Route.LookupReturnsFirstMatch | app/api/ephemerides/route.ts:63-70 | with several rows for one date the lookup returns the first of them (`data[0]`) |
| Route.GetTodayEphemeris | app/api/ephemerides/route.ts:78-96 | today's row when there is one, else the row for 2025-06-25; null exactly when both lookups find nothing; the row is filed under one of the two dates |
| Route.Get | app/api/ephemerides/route.ts:101-141 | status is 200, 404 or 500; 200 exactly when the body carries data; 500 exactly for an unreadable request; a non-empty `date` answers that date's row or 404 "para la fecha especificada", otherwise the today rule's row or 404 "para hoy" |
| Route.DateRequestIgnoresToday | app/api/ephemerides/route.ts:107-118 | a request with a date answers the same whatever today's date is |
| Route.DateRequestHasNoFallback | app/api/ephemerides/route.ts:107-115 | a date with no row answers 404, even when the fallback date has a row |
| Route.EmptyDateMeansToday | app/api/ephemerides/route.ts:104-107 | an empty `date` parameter is falsy and takes the today path |
| Route.FailingStoreIsNotFound | app/api/ephemerides/route.ts:71-74 | store failures are swallowed: a readable request against a failing store answers 404, never 500 |
| Client.Classify | lib/ephemerides.ts:9-38 | 404 is "not found"; another non-OK status, a transport error or an unreadable body is a caught error; an OK envelope without `data` is "no data"; otherwise the envelope's row |
| Client.Interpret | lib/ephemerides.ts:44-73 | a row is returned exactly for an OK reply whose envelope carries `data`, and it is that row unchanged; every other reply gives null (the helpers never throw) |
| Client.ClientSeesDateLookup | lib/ephemerides.ts:9-38 | fetching a date through the route yields exactly the server's lookup for it, a missing row classified as "not found"; an empty date yields the today rule |
| Client.ClientSeesTodayLookup | lib/ephemerides.ts:44-73 | fetching today through the route yields exactly the server's today-or-fallback row |
| Client.FormatForDisplay | lib/ephemerides.ts:82-108 | for a day that exists and a year that `Date` can hold: year, month and day are each the historical value unless it is null or 0, else the filed one; the date text reads back as that day and month, which by `ReadLongDateOnlyLongDates` makes it exactly the unpadded "day de month" text; the event is unchanged |
| Client.DateIgnoresYear | lib/ephemerides.ts:94-98 | the date text depends only on the effective day and month |
| Client.LinuxRowShowsHistoricalDate | lib/ephemerides.ts:82-108 | a row filed for 2025-06-25 about 25 August 1991 is served and shown as "25 de agosto", 1991 |
| Browser.PlatformInfo | lib/browser-utils.ts:28 | the lower-cased platform name when it is present and non-empty; the lower-cased user agent when it is missing or empty |
| Browser.GetOSInfo | lib/browser-utils.ts:15-41 | all flags false without a window; otherwise each flag holds exactly when its word occurs in the platform text or the user agent, and mobile exactly for a mobile word, the mobile hint, or a width of at most 768 |
| Browser.GetCloseTabCommand | lib/browser-utils.ts:46-60 | "Cmd+W" exactly when the OS is detected as Mac, "Ctrl+W" otherwise (server rendering included) |
| Browser.GetDetailedOSInfo | lib/browser-utils.ts:65-77 | a server-side marker exactly without a window; otherwise the detected flags, the raw user agent, the raw platform or "Not available" when it is missing or empty, and the same shortcut `getCloseTabCommand` gives |
| Browser.MacAgentGetsCmdW | lib/browser-utils.ts:36-53 | a user agent containing "Mac" in any position gives Cmd+W, whatever else it contains |
| Browser.NoMacGetsCtrlW | lib/browser-utils.ts:54-59 | without "mac" in either string the shortcut is Ctrl+W |
| Browser.AndroidAgentIsMobile | lib/browser-utils.ts:31 | a user agent containing "Android" is mobile at any width |
| Browser.WindowsAgentIsWindows | lib/browser-utils.ts:37 | a user agent containing "Windows" is Windows whatever the platform says |
| Generator.GetMonthName | scripts/generate-daily-ephemeris.js:75-81 | a name exactly for months 1 to 12 (`undefined` otherwise), and the name maps back to its month |
| Calendar.MonthNamesRoundTrip | scripts/generate-daily-ephemeris.js:76-79 | each of the twelve names maps back to its month number |
| Generator.FindFirst | scripts/generate-daily-ephemeris.js:149-150 | `findIndex`: a found index is at or after the start and its line satisfies the test |
| Generator.FindFirstIsFirst | scripts/generate-daily-ephemeris.js:149-150 | no line before the found index (or, when none is found, no line at all from the start) satisfies the test |
| Generator.StripFences | scripts/generate-daily-ephemeris.js:144-155 | the cleaned reply never has whitespace at either end |
| Generator.UnfencedIsTrimmed | scripts/generate-daily-ephemeris.js:144-147 | a reply not starting with a fence is only trimmed |
| Generator.FencedBlockYieldsBody | scripts/generate-daily-ephemeris.js:144-155 | a reply "```tag", body, "```" yields the trimmed body, when the body has no closing-fence line |
| Generator.FindFirstAt | scripts/generate-daily-ephemeris.js:149-150 | `findIndex` reports index k whenever k is the first index from the start whose line satisfies the test |
| Generator.BetweenAt | scripts/generate-daily-ephemeris.js:148-153 | lines that open on the first one and first close on line k yield the lines strictly between the two, joined |
| Generator.FirstLineOpensFence | scripts/generate-daily-ephemeris.js:147-149 | text that starts with a fence has a first line that starts with one |
| Generator.StripFencesCutsAtFirstClose | scripts/generate-daily-ephemeris.js:144-155 | a reply that starts with a fence becomes the trimmed join of the lines strictly between its first line and its first later closing-fence line; anything after that line is dropped |
| Text.SplitHeadKeepsPrefix | scripts/generate-daily-ephemeris.js:148 | the first line of a split keeps any prefix of the text that holds no separator |
| Generator.UnclosedFenceIsKept | scripts/generate-daily-ephemeris.js:147-155 | without a closing fence the trimmed reply is kept as it is |
| Text.JoinSplit | scripts/generate-daily-ephemeris.js:148-153 | joining the split lines with the same separator gives the text back |
| Text.TrimRemovesPadding | scripts/generate-daily-ephemeris.js:144 | `trim` removes whitespace at the two ends only and keeps the middle |
| Generator.Validate | scripts/generate-daily-ephemeris.js:159-175 | a draft is accepted exactly when the parsed value has no truthy `error`, a non-empty string `event` and truthy historical year, month and day; the draft carries those members unchanged |
| Generator.Generate | scripts/generate-daily-ephemeris.js:134-179 | a draft only from a 200 reply with non-empty content, and then exactly the validation of the parsed, cleaned content |
| Generator.CheckExisting | scripts/generate-daily-ephemeris.js:183-204 | a row exactly for a 200 reply with a non-empty array, and then its first element; null for everything else, errors included |
| Generator.CheckAgreesWithLookup | scripts/generate-daily-ephemeris.js:195-199 | the script's existence check and the site's lookup give the same answer on every store |
| Generator.BuildRecord | scripts/generate-daily-ephemeris.js:207-219 | the record's `display_date` parses back to the target date; day, month and year are the target's; event and historical fields are the draft's |
| Generator.ToStoredRow | scripts/generate-daily-ephemeris.js:224-239 | the table stores a row exactly when the three historical fields are integral, under the given id and with every posted field |
| Generator.ContentStore.Insert | scripts/generate-daily-ephemeris.js:224-239 | an accepted post appends exactly one row under a fresh id and returns it; a refused one changes nothing |
| Generator.Run | scripts/generate-daily-ephemeris.js:247-299 | the run's exit is the planned one for the table before the run; the table gains the inserted row and nothing else, and the id counter moves on by one exactly when a row was inserted |
| Generator.GenerationFailureAborts | scripts/generate-daily-ephemeris.js:281-286 | on a date with no fact, a missing or invalid draft ends the run as a generation failure with exit code 1 |
| Generator.ExistingFactSkips | scripts/generate-daily-ephemeris.js:271-278 | a date that already has a row on a reachable table ends the run with nothing generated |
| Generator.InsertedRowCarriesDraft | scripts/generate-daily-ephemeris.js:281-289 | an inserted row carries the next id, the target date and the validated draft's event and historical fields |
| Generator.RerunSkips | scripts/generate-daily-ephemeris.js:271-278 | a second run for the same date on the table the first run left writes nothing, whatever the chat answers |
| Generator.RunKeepsDatesUnique | scripts/generate-daily-ephemeris.js:271-289 | with a reachable table, a run keeps at most one row per display date |
| Generator.FailedCheckDuplicates | scripts/generate-daily-ephemeris.js:200-203 | when the existence query fails the script carries on and files a second row for an already filed date |
| Generator.InsertedRowIsServed | scripts/generate-daily-ephemeris.js:289 | after an insert, the site's lookup for that date serves the new row |
| Calendar.IsoDateRoundTrip | scripts/generate-daily-ephemeris.js:208 | the `YYYY-MM-DD` key of a valid date parses back to that date |
| Calendar.IsoDateInjective | scripts/generate-daily-ephemeris.js:265 | two valid dates with the same key are the same date |
| Calendar.LongDateRoundTrip | lib/ephemerides.ts:94-98 | the "day de month" text reads back as its day and month |
| Calendar.ReadLongDateOnlyLongDates | lib/ephemerides.ts:94-98 | a text that reads back as a day and a month is exactly the es-ES rendering of them (no leading zero, one " de ", the month's name), so the rendering is pinned by what it reads back as |
| Calendar.PaddedDayIsRefused | lib/ephemerides.ts:94-98 | a zero-padded day ("025 de agosto") does not read back as a date |
| Calendar.NumeralIsNatToString | lib/ephemerides.ts:94-98 | a decimal numeral without leading zeros is the printed form of the number it denotes |
| Page.TypingText | app/page.tsx:66-68 | the typed text is the date, then " de ", the year and ":" followed by a blank line, then the event |
| Page.RenderContent | app/page.tsx:157-197 | loading first; then a non-empty error; then "no fact"; otherwise the typed text with a cursor exactly while typing |
| Page.LoadedPanel | app/page.tsx:43-57 | once loading ends the panel shows the fact exactly when the client got one, the "no fact" notice otherwise |
| Page.TruncateForShare | app/page.tsx:141-144 | the text is at most 200 long; it is unchanged exactly when the event has at most 200 characters; otherwise the first 197 plus "..." |
| Page.TruncateIsIdempotent | app/page.tsx:141-144 | cutting a cut text changes nothing |
| Page.TweetText | app/page.tsx:146-148 | the tweet is the laptop emoji, the cut event and the information line, in that order |
| Page.ShareText | app/page.tsx:135-148 | nothing without a fact; otherwise the tweet for the row's event |
| Page.ShareUsesFormattedEvent | app/page.tsx:138-141 | the tweet built from the formatted fact's event is the tweet for the row's event |
| Page.ShareButtonShares | app/page.tsx:135-148 | whenever the share button is rendered there is a tweet, and it carries the (possibly cut) event |
| Page.SplitAtCursor | app/page.tsx:326-328 | for any cursor the two sides put together give the input back; an in-range cursor splits at that position |
| Text.Utf16Length | app/page.tsx:103 | JavaScript's `length`: between one and two code units per code point, and one per code point exactly when none lies outside the Basic Multilingual Plane |
| Page.LimitHint | app/page.tsx:346-350 | the "length/limit" hint appears exactly from 18 (mobile) or 45 UTF-16 code units on, and shows that length |
| Page.HintBeforeLimit | app/page.tsx:341-350 | an input within the limit never shows a count above the limit |
| Page.Caret | app/page.tsx:108 | `selectionStart \|\| 0`: the selection, or 0 when there is none |
| Page.Page.constructor | app/page.tsx:11-40 | the first state: loading, no error, no fact, typing, empty input, shortcut and mobile flag from the browser |
| Page.Page.FinishLoading | app/page.tsx:43-57 | the fact is the client's result, the error is cleared and loading ends; the panel is the fact or "no fact", never an error |
| Page.Page.FailLoading | app/page.tsx:49-53 | the error message is set and loading ends; the panel shows the error |
| Page.Page.StartTyping | app/page.tsx:62-72 | with a loaded fact the full text is the formatted fact, the panel is cleared and typing starts; otherwise nothing changes |
| Page.Page.Tick | app/page.tsx:74-82 | one more character is shown while some remain; otherwise typing stops |
| Page.Page.TypeOut | app/page.tsx:70-85 | running the interval to its end shows the whole text, stops typing and takes one tick per remaining character plus one |
| Page.Page.InputChange | app/page.tsx:99-111 | a value within 20 (mobile) or 50 UTF-16 code units replaces the input and moves the cursor to the selection; a longer one changes nothing |
| Page.Page.MoveCursor | app/page.tsx:114-127 | the cursor follows the input's selection |
| Page.Page.KeyPress | app/page.tsx:88-96 | Enter clears the input and resets the cursor; other keys change nothing |
| Page.LinuxRowTypesOut | app/page.tsx:65-68 | the row about 25 August 1991 is typed as "25 de agosto de 1991:", a blank line, then the event |
| Page.LoadAndType | app/page.tsx:43-85 | from mount to the end of typing, the panel shows the whole formatted fact without a cursor, or "no fact" |

## Left out

- HTTP, `fetch`, `JSON.parse` and `JSON.stringify`: replies are datatypes, and the script's parser is a function parameter.
- The chat model's prompt and parameters, and the environment-variable checks at load time. A missing variable ends the process before anything the model covers runs.
- The clock and the locale. Today's date (`new Date().toISOString()`) and the script's target date are inputs. Parsing the `YYYY-MM-DD` command-line argument is not modelled.
- The script's mix of UTC (`toISOString`) and local getters (`getDate`, `getMonth`, `getFullYear`). The model uses one calendar date for both; near midnight in a non-UTC zone the source's two dates can differ.
- Client.FormatForDisplay: requires a day that exists in the calendar. JavaScript's `new Date(y, m - 1, d)` rolls an invalid day (31 June, month 13, day 0) over into another month, and that normalisation is not modelled.
- Client.FormatForDisplay: also requires a year from -271820 to 275759. Outside the range of JavaScript's `Date` (for example year 300000) the source formats an Invalid Date and shows "Invalid Date" as the date text; that case is not modelled. The two partial years at the range's ends are left out as well.
- Calendar.IsoDate: covers the years 0 to 9999 only; `toISOString` writes other years with a sign and six digits.
- Generator.Generate: the reply's content is a string or nothing. A non-string `content` would make `trim` throw, which also gives null.
- Text.ToLower: lower-cases ASCII letters only, not the rest of Unicode.
- Page.TruncateForShare: counts code points, whereas JavaScript's `length` and `substring` count UTF-16 code units. Text with characters outside the Basic Multilingual Plane is cut at a different place.
- Page.Page.Tick: shows one more code point per tick. JavaScript's `slice(0, index + 1)` counts UTF-16 code units, so for a character outside the Basic Multilingual Plane the source briefly shows half of a surrogate pair, which a string of code points cannot hold.
- Page.Page.TypeOut: takes one tick per remaining code point plus one. The source takes one per remaining UTF-16 code unit plus one, so text with characters outside the Basic Multilingual Plane takes more ticks there.
- Page.Page.InputChange: the length limit counts UTF-16 code units as the source does, but the cursor position is a code-point index. The browser's `selectionStart` counts code units, so after a character outside the Basic Multilingual Plane the model's cursor is the code-point position.
- Page.Page.MoveCursor: the cursor is a code-point index, not the browser's code-unit `selectionStart` (see `InputChange`).
- Page.SplitAtCursor: slices at a code-point index, whereas `slice` counts UTF-16 code units.
- The unescaped `date` in the store query URL (`display_date=eq.${date}`) and the URL encoding of the share link. The lookup is modelled as an exact match, and the share link as the tweet text.
- Type coercion by the database: a historical field that is not an integral JSON number makes the insert fail (`ToStoredRow` gives none). Numeric strings that the database would coerce are treated the same way.
- `created_at`, `updated_at` and the id are assigned by the database. The id is a counter in `ContentStore`; the timestamps are left empty.
- The page's clock (`currentTime`), the `isTerminalFocused` flag, which nothing reads, the React rendering, `setTimeout` deferral and interval scheduling. A tick is a method call.
- Concurrency: two overlapping script runs, or a run racing the site, are not modelled. Each run is one sequential method.
- `console` logging, `process.exit` codes as process effects (`ExitCode` gives them as values), `window.open`, and `app/layout.tsx`.
- The page's error panel appears only if the client helper throws, and `getTodayEphemeris` catches every error. `FailLoading` models the catch branch, but nothing in the model calls it.
