# DFW theatre finder: the filter engine and the fallback extractor

This project models the two pieces of logic of the DFW theatre finder and
proves properties of them:

- **The browser client** (`app.js`):
  - the date-range overlap test `overlapInRange`;
  - the HTML escapers `escapeHtml` and `escapeAttr`;
  - the filter predicate and the three sort modes of `applyFilters`;
  - the distinct, sorted option lists that `loadEvents` builds for the source, category and city select boxes;
  - the date line of a card in `render`;
  - the state that `loadEvents` and `applyFilters` update: the module-level `allEvents`, the option lists, the rendered list, the status line and the "last refresh" text.
- **The fallback extractor of the sync endpoint** (`sync-events.mjs`):
  - the method guard;
  - the loop over the page's anchors: title check, the `(M/D - M/D)` pattern in the text of the enclosing row, dates built in the current year, the link resolved against the site, and the fixed field values;
  - the 200 and 500 responses.

Modules, one file each:

| module | contents |
|---|---|
| `Wrappers` | `Option` and `Result` |
| `Text` | JavaScript string behaviour the code relies on: truthiness of an optional string, `trim` and its white-space set, ASCII `toLowerCase`, `includes`, code-point string order (the model of `localeCompare`), decimal digits, `replaceAll` of one character |
| `IsoDate` | dates with a four-digit year (`YYYY`, `YYYY-MM`, `YYYY-MM-DD`): those date-only strings as `new Date(iso + "T00:00:00")` reads them, and the theorem that string order is day order for them |
| `Escape` | `escapeHtml`, `escapeAttr` |
| `Sorting` | `Array.prototype.sort` with a string-key comparator: a stable insertion sort, proved sorted, a permutation and stable |
| `Events` | the listing record |
| `ClientFilter` | the pure parts of `app.js` |
| `Client` | the class `ClientState` holding what `loadEvents` and `applyFilters` reassign |
| `SyncEvents` | the extractor and the handler of `sync-events.mjs` |

Time values are modelled by an order-preserving day number. For each date this is `DayIndex * 86400` plus the second of the day. The code only ever compares two such values, so only their order matters. A date string that `Date` cannot read is NaN, and every comparison with NaN is false.

Some facts the proofs establish:
- The overlap test is a string comparison of the dates, and intervals that touch on a day overlap.
- The "soonest" order puts undated events last because every real date sorts before `9999-99-99`.
- The "latest" order puts undated events last as well, because `""` sorts before every date.
- In a year from 1000 to 9000 the extractor never throws, and its dates are strings the client parses back to the same calendar days.
- The year is never rolled over, so a run written `(12/15 - 1/5)` gets an `endDate` before its `startDate`.

The two files disagree on the reply of the sync endpoint:
- `triggerRefresh` (app.js:181-184) posts to `/api/sync-events` and reads `data.ok` and `data.count` from the reply.
- `sync-events.mjs` (lines 43-55) answers `{generatedAt, events}` on success and `{error}` with status 500 on failure, and stores nothing.

The model follows `sync-events.mjs`; `triggerRefresh` is listed under "## Left out".

## Model

| member | source | states |
|---|---|---|
| Text.OrElse | app.js:130 | `x \|\| d` for an optional string: the string when it is present and non-empty, `d` otherwise |
| Text.IsJsSpace | sync-events.mjs:18 | the white space of `trim` and `\s` contains no capital letter, digit, bracket, slash or hyphen, so lower-casing keeps it and it never merges with the other pieces of the date pattern |
| Text.Trim | sync-events.mjs:18 | `trim()` yields a slice of the input whose removed prefix and suffix are all white space and which neither starts nor ends with white space |
| Text.TrimStart | app.js:114 | the removed prefix is white space and the rest does not start with white space |
| Text.TrimEnd | app.js:114 | the removed suffix is white space and the rest does not end with white space |
| Text.LowerChar | app.js:114 | `toLowerCase` of one character maps each of `A`–`Z` to the same letter in `a`–`z` (32 code points on) and keeps every other character |
| Text.ToLower | app.js:130 | `toLowerCase` keeps the length and lowers every character in place |
| Text.ToLowerConcat | app.js:130 | lower-casing distributes over concatenation |
| Text.Contains | app.js:131 | `includes`: the empty string and every prefix are contained, and nothing longer than the text is |
| Text.ContainsInLeft | app.js:131 | a substring of the left part of a concatenation is a substring of the whole |
| Text.ContainsInRight | app.js:131 | a substring of the right part of a concatenation is a substring of the whole |
| Text.LowerFieldIn | app.js:130-131 | what the lower-cased form of a part contains, the lower-cased whole contains |
| Text.StrLeReflexive | app.js:137 | the string order used for `localeCompare` is reflexive |
| Text.StrLeTotal | app.js:137 | any two strings are comparable |
| Text.StrLeAntisymmetric | app.js:137 | strings that are each at most the other are equal |
| Text.StrLeTransitive | app.js:137 | the order is transitive, so sorting by it is well defined |
| Text.StrLeLexicographic | app.js:137-141 | the order that models `localeCompare`: `a` is at most `b` exactly when `a` is a prefix of `b` or the first differing character of `a` is smaller |
| Text.StrLessIsStrict | app.js:160 | strictly-less is irreflexive and implies less-or-equal and inequality |
| Text.EmptyIsLeast | app.js:139 | the empty string sorts before every string |
| Text.StrLeConcat | app.js:137 | comparing two strings that share the length of their first part decides on that part first |
| Text.NumberOf | sync-events.mjs:26 | the number a run of digits denotes is below ten to the power of its length |
| Text.PadDigits | sync-events.mjs:34 | a number written with a fixed width of decimal digits has that width |
| Text.PadDigitsRoundTrip | sync-events.mjs:34 | reading back the padded digits gives the number |
| Text.DigitOrder | app.js:137 | for digit strings of one length, string order is numeric order, and equal strings are equal numbers |
| Text.ReplaceChar | app.js:64-68 | `replaceAll` of a character leaves no occurrence of it unless the replacement contains it, and adds no other character than the replacement's |
| Text.ReplaceCharConcat | app.js:64-68 | `replaceAll` distributes over concatenation |
| Text.ReplaceCharAbsent | app.js:64-68 | `replaceAll` of a character that does not occur changes nothing |
| IsoDate.DaysInMonth | app.js:38 | month lengths are 28 to 31 days, and February has 29 days exactly in leap years |
| IsoDate.ParseDateOnly | app.js:38 | whatever it reads is a valid calendar date with a year from 0 to 9999, and a `YYYY-MM-DD` string reads as exactly the day it names when that day exists and as nothing otherwise |
| IsoDate.DayIndexOrder | app.js:44-45 | the day number increases exactly with the calendar order of valid dates |
| IsoDate.ShapeOrder | app.js:137 | for strings of the shape `DDDD-DD-DD`, string order is the order of their numeric fields, and equal strings have equal fields |
| IsoDate.IsoDateOrder | app.js:44-45 | for date-only strings, string order is day order, and equal strings are the same day |
| IsoDate.FormatIsoDate | sync-events.mjs:34-35 | the written date has the shape `DDDD-DD-DD` |
| IsoDate.FormatParseRoundTrip | sync-events.mjs:34-35 | a written date of years 0–9999 is an ISO date the client reads back to the same day |
| Escape.ReplaceSpecials | app.js:63-68 | after the five replacements no `<`, `>`, `"` or `'` remains |
| Escape.EscapeHtml | app.js:62-69 | a missing or empty input gives "", and the output has no `<`, `>`, `"` or `'` |
| Escape.EscapeAttr | app.js:70 | the output also has no backtick |
| Escape.ReplaceSpecialsConcat | app.js:63-68 | the escaper distributes over concatenation |
| Escape.ReplaceSpecialsOfOne | app.js:63-68 | each character becomes its entity: `&amp;`, `&lt;`, `&gt;`, `&quot;`, `&#039;`, or itself |
| Escape.EscapeHtmlIsPerCharacter | app.js:62-69 | the chained replacements equal escaping each character independently, so no entity is escaped twice |
| Escape.UnescapeEntity | app.js:62-69 | decoding an escaped character followed by more text gives the character back, followed by the decoding of the rest |
| Escape.UnescapeEscapeEach | app.js:62-69 | decoding the per-character escape gives back the input |
| Escape.EscapeHtmlRoundTrip | app.js:62-69 | decoding the output of `escapeHtml` gives back the input: the escaping loses nothing |
| Sorting.WithKey | app.js:136-142 | the elements with key `k`, in input order; no more of them than the input has |
| Sorting.WithKeyMembers | app.js:136-142 | exactly the elements of the input whose key is `k`: every one is kept and no other is added |
| Sorting.InOrderTotal | app.js:136-142 | any two elements can be placed in some order by the comparator |
| Sorting.InOrderTransitive | app.js:136-142 | the comparator's order is transitive |
| Sorting.Insert | app.js:136-142 | inserting adds exactly the one element |
| Sorting.SortBy | app.js:136-142 | `sort` returns a permutation of its input |
| Sorting.InsertSorted | app.js:136-142 | inserting into a sorted sequence keeps it sorted |
| Sorting.SortBySorted | app.js:136-142 | the result of `sort` is ordered by the comparator |
| Sorting.WithKeyCons | app.js:136-142 | the elements with a key of a sequence with one more element in front |
| Sorting.InsertStable | app.js:136-142 | inserting keeps the relative order of elements with equal keys |
| Sorting.SortByStable | app.js:136-142 | `sort` is stable: elements with equal keys keep their input order |
| ClientFilter.InstantOf | app.js:38-42 | `new Date(iso + "T...").getTime()` is a number exactly when the text is a date-only string, and NaN otherwise |
| ClientFilter.Earlier | app.js:44-45 | `<` on time values is false whenever either side is NaN, and is irreflexive |
| ClientFilter.SecondsOrder | app.js:38-45 | a whole day outweighs any time of day |
| ClientFilter.InstantOrder | app.js:38-45 | for two ISO dates with times of day, the earlier instant is on the string-earlier date, or on the same date at the earlier time |
| ClientFilter.OverlapInRange | app.js:35-47 | an event without a start date always passes; with neither bound set every event passes |
| ClientFilter.OverlapByDateStrings | app.js:35-47 | for ISO dates the event passes exactly when the range start is at most its end date and its start date is at most the range end; a missing end date makes it a one-day event and touching days overlap |
| ClientFilter.UnreadableStartIgnored | app.js:41-44 | a range start that is not a readable date is ignored on its own: the test is the same as with no range start, whatever the range end |
| ClientFilter.UnreadableEndIgnored | app.js:42-45 | a range end that is not a readable date is ignored on its own: the test is the same as with no range end, whatever the range start |
| ClientFilter.Bound | app.js:115-116 | a date field of the form is a bound exactly when it is non-empty |
| ClientFilter.NormalizedQuery | app.js:114 | `q.trim().toLowerCase()` is no longer than the input, is empty exactly when the input is blank, has no capital letter, and neither starts nor ends with white space |
| ClientFilter.LowerKeepsShape | app.js:114 | lower-casing keeps emptiness and non-space ends and leaves no ASCII capital |
| ClientFilter.Haystack | app.js:130 | any text found in the lower-cased title, venue, city, source or category is found in the haystack |
| ClientFilter.LowerFieldsIn | app.js:130 | each of the five space-joined fields passes what it contains on to the lower-cased whole |
| ClientFilter.Keep | app.js:122-134 | an empty form keeps every event, and a kept event has the chosen source, category and city wherever one is chosen |
| ClientFilter.SubsequenceMultiset | app.js:122 | a subsequence holds no element more often than the sequence it is taken from |
| ClientFilter.FilterEvents | app.js:122-134 | the kept events are a subsequence of `allEvents`; an event is kept exactly when it passes every criterion, and then as many times as it occurs |
| ClientFilter.EmptyCriteriaKeepAll | app.js:113-134 | with a blank query, no dates and no choices, every event is kept, in order |
| ClientFilter.SoonestKey | app.js:137 | `a.startDate \|\| "9999-99-99"`: an ISO start date always sorts strictly before the key of an undated event |
| ClientFilter.LatestKey | app.js:139 | `a.startDate \|\| ""`: an undated event's key is at most every string |
| ClientFilter.TitleKey | app.js:141 | `a.title \|\| ""`: an untitled event's key is at most every string |
| ClientFilter.SortEvents | app.js:136-142 | each sort mode returns a permutation of the filtered list |
| ClientFilter.Visible | app.js:113-144 | the rendered list holds each event of `allEvents` that passes the filter as many times as it occurs there, and nothing else |
| ClientFilter.Nines | app.js:137 | the sentinel's fields are digit runs of nines |
| ClientFilter.NumberOfNines | app.js:137 | a run of nines is the largest number of its width |
| ClientFilter.IsoDateBeforeLastDate | app.js:137 | every ISO date sorts strictly before `9999-99-99` |
| ClientFilter.SoonestOrder | app.js:136-137 | "soonest": dated events come before undated ones, ascend by day, and events with equal start text keep their order |
| ClientFilter.LatestOrder | app.js:138-139 | "latest": events with a start date come before those without, dated events descend by day, and ties keep their order |
| ClientFilter.TitleOrder | app.js:140-141 | "title": titles ascend with a missing title as "", and ties keep their order |
| ClientFilter.UnknownSortKeepsOrder | app.js:136-142 | any other sort value renders the kept events in snapshot order |
| ClientFilter.PresentValues | app.js:160-162 | the mapped-and-filtered values are exactly the non-empty values some event carries |
| ClientFilter.Distinct | app.js:160-162 | `[...new Set(values)]` holds each value of the input exactly once |
| ClientFilter.RepeatedTwice | app.js:160-162 | a value at two positions occurs at least twice |
| ClientFilter.DistinctMembers | app.js:160-162 | `new Set(values)` has exactly the members of `values` |
| ClientFilter.SortDistinctStrict | app.js:160-162 | sorting values that occur at most once gives a strictly ascending list of the same values |
| ClientFilter.OptionList | app.js:160-162 | each option list is strictly ascending, so duplicate-free, and holds exactly the non-empty values of that field |
| ClientFilter.Pretty | app.js:29-30 | `isoToPretty` shows "TBA" exactly when the date is missing or empty, and otherwise that date |
| ClientFilter.DateText | app.js:81-83 | a range shows exactly when both dates are present and differ; otherwise the single start date, or "TBA" exactly when the start is missing |
| Client.ClientState.constructor | app.js:21 | the client starts with no events, no options, nothing rendered and the loading status |
| Client.ClientState.ApplyFilters | app.js:113-145 | `applyFilters` renders the filtered list sorted by the chosen mode, keeps the client's invariant and changes nothing else |
| Client.ClientState.BuildOptions | app.js:160-166 | the three select boxes receive the distinct sorted values of their field |
| Client.ClientState.LoadEvents | app.js:147-177 | a failed load empties the events and the list and keeps the old options; a successful one installs the events (none when `events` is not an array), the options, the refresh text, the count and the filtered list |
| Client.ClientState.Install | app.js:154-169 | the successful branch: the events, the three option lists, the refresh text, the count and the rendered list all follow from the snapshot |
| SyncEvents.NumberEnd | sync-events.mjs:22 | `\d{1,2}` takes two digits when there are two and otherwise one, and fails exactly when no digit is there |
| SyncEvents.SkipSpaces | sync-events.mjs:22 | `\s*` stops at the first character that is not white space |
| SyncEvents.PieceEnd | sync-events.mjs:22 | one piece of the pattern matches a text of that piece, as long as it can be |
| SyncEvents.Lead | sync-events.mjs:22 | a capture has at most two digits |
| SyncEvents.Scan | sync-events.mjs:22 | a scan that succeeds ends inside the text and captures one number below 100 per capture group |
| SyncEvents.RangePatternCount | sync-events.mjs:22 | the pattern has four capture groups |
| SyncEvents.MatchAt | sync-events.mjs:22 | the pattern matches at an index exactly when the scan succeeds there, with two-digit captures |
| SyncEvents.FindRangeFrom | sync-events.mjs:22 | `match` returns the leftmost match, or none when the pattern matches nowhere |
| SyncEvents.FindRange | sync-events.mjs:22 | the captures of a match have at most two digits |
| SyncEvents.SpellsPieces | sync-events.mjs:22 | a text that reads the pieces splits into texts of those pieces, within the string |
| SyncEvents.SkipSpacesOver | sync-events.mjs:22 | `\s*` consumes exactly a maximal white-space run |
| SyncEvents.PieceEndOver | sync-events.mjs:22 | each piece consumes exactly a longest text of that piece |
| SyncEvents.ScanStep | sync-events.mjs:22 | the scan tries the pieces one after the other |
| SyncEvents.ScanComplete | sync-events.mjs:22 | wherever the text reads the pieces, each as long as it can be, the scan finds them with the numbers written there |
| SyncEvents.ScanSound | sync-events.mjs:22 | whatever the scan accepts reads the pieces, each as long as it can be, with the numbers written there |
| SyncEvents.RangePatternSeparated | sync-events.mjs:22 | in the pattern no digit run is followed by a digit and no white-space run by white space |
| SyncEvents.FirstChar | sync-events.mjs:22 | a text of a literal, digit or white-space piece starts with that kind of character |
| SyncEvents.SeparatedGreedy | sync-events.mjs:22 | for such a pattern, every way the text reads the pieces is the greedy one, so backtracking never changes the match |
| SyncEvents.MatchAtComplete | sync-events.mjs:22 | wherever the text reads `(M/D - M/D)`, the match is found there with the numbers written |
| SyncEvents.MatchAtSound | sync-events.mjs:22 | every match reads `(M/D - M/D)`, with the numbers written there |
| SyncEvents.FullYear | sync-events.mjs:26-27 | `new Date(y, ...)` reads a year 0–99 as 1900–1999 with the same last two digits and keeps every other year |
| SyncEvents.AdvanceDays | sync-events.mjs:26-27 | days past a month's end carry into the following months and give a valid date |
| SyncEvents.MakeDate | sync-events.mjs:26-27 | `new Date(year, month, day)` gives a valid calendar date, whatever month and day it is given |
| SyncEvents.AdvanceDaysBound | sync-events.mjs:26-27 | carried days move the month forward by at most one month per 28 days |
| SyncEvents.MakeDateYear | sync-events.mjs:26-27 | with two-digit captures the date lands at most two years before and nine years after the year |
| SyncEvents.MakeDateInMonth | sync-events.mjs:26-27 | a valid month and day are kept as written, with no carry |
| SyncEvents.YearText | sync-events.mjs:34-35 | `toISOString` writes the year with at least four characters |
| SyncEvents.IsoDayText | sync-events.mjs:34-35 | `slice(0, 10)` keeps ten characters, and for years 0–9999 they are the `YYYY-MM-DD` date |
| SyncEvents.InTimeRange | sync-events.mjs:34 | `toISOString` accepts only dates of years −271821 to 275760, and every date strictly inside that span of years |
| SyncEvents.ModernInTimeRange | sync-events.mjs:34-35 | dates of years 0–9999 lie within the range `toISOString` accepts |
| SyncEvents.ResolveHref | sync-events.mjs:37 | an absolute link is kept; a scheme-relative `//host…` link takes `https:`; a path is placed under the site with exactly one `/` between them; a missing `href` resolves to the site's `/undefined` |
| SyncEvents.Qualifies | sync-events.mjs:18-23 | an anchor goes on only when its trimmed text, and so its raw text, has at least four characters (and its row matches) |
| SyncEvents.StartOf | sync-events.mjs:26 | the start date is a valid date near the current year |
| SyncEvents.EndOf | sync-events.mjs:27 | the end date is a valid date near the current year |
| SyncEvents.BuildEvent | sync-events.mjs:29-40 | the pushed record has the fixed venue, city, times, source and category, the given title, the resolved link and the ISO day text of both dates |
| SyncEvents.ExtractOne | sync-events.mjs:16-41 | an anchor is skipped exactly when its trimmed text is empty or shorter than four characters or its row has no match; it throws the `RangeError` exactly when a date is out of range; otherwise it yields the record with the trimmed title, the resolved link and both dates |
| SyncEvents.ExtractAll | sync-events.mjs:16-41 | the outcome of the whole page: at most one event per anchor, or the `RangeError` message |
| SyncEvents.ExtractEvents | sync-events.mjs:14-41 | the loop produces the events of `ExtractAll`, or the first exception's message |
| SyncEvents.ExtractAllAt | sync-events.mjs:16 | the anchors are handled one after the other |
| SyncEvents.PrependNothing | sync-events.mjs:14 | nothing in front of a result leaves it unchanged |
| SyncEvents.PrependTwice | sync-events.mjs:29 | pushing events one after another equals pushing them together |
| SyncEvents.ThenAndThen | sync-events.mjs:16-41 | one anchor's outcome and the rest combine associatively |
| SyncEvents.ExtractAllAppend | sync-events.mjs:16-41 | two parts of a page give their events one after the other, and an exception in the first part stops the whole |
| SyncEvents.AnyThrowsCons | sync-events.mjs:16-41 | some anchor throws exactly when the first throws or one of the rest does |
| SyncEvents.ExtractAllFails | sync-events.mjs:16-41 | among the modelled exceptions, extraction fails exactly when some anchor throws, and then with "Invalid time value" |
| SyncEvents.ExtractAllCount | sync-events.mjs:16-41 | exactly one event per qualifying anchor: nothing is merged or dropped |
| SyncEvents.OneWellBuilt | sync-events.mjs:29-40 | an extracted record carries the fixed values, a title of at least four characters, a link and ten-character dates |
| SyncEvents.ExtractAllWellBuilt | sync-events.mjs:29-40 | every extracted event carries the fixed values, a title of at least four characters, a link and ten-character dates |
| SyncEvents.EmittedDates | sync-events.mjs:25-35 | in a year from 1000 to 9000 a qualifying anchor never throws, and its dates are ISO dates that the client reads back to the calendar dates built from the captures |
| SyncEvents.ReversedRunEndsFirst | sync-events.mjs:25-27 | two dates of one year written in reverse order give an end date that sorts before the start date: the year is not rolled over |
| SyncEvents.ModernYearSucceeds | sync-events.mjs:16-55 | in a year from 1000 to 9000 the page never produces the 500 response from a `RangeError` |
| SyncEvents.HandleSync | sync-events.mjs:3-57 | a method other than GET or POST gets 405 "Method not allowed" and only it does; a fetch failure or an extraction exception gets 500 with the message; otherwise 200 with the current time and the extracted events |

## Left out

- The DOM is not modelled: the `els` lookups, `innerHTML`, `buildSelectOptions`, `toast`, `setTimeout`, the event listeners, the reset button and the card markup of `render` other than its date line.
- Client.ClientState.LoadEvents: the form's values `c` are a parameter. In the source, `buildSelectOptions` empties each select box and puts back only its placeholder (app.js:51-52). So the `applyFilters` that `loadEvents` runs reads the placeholder's value for source, category and city; the model lets the caller pass any values there.
- Client.ClientState.LoadEvents: the payload's events are taken as well-formed records. A `null` entry in `data.events` makes `allEvents.map(e => e.source)` throw (app.js:160) after the refresh text is already set (app.js:154). The catch branch then keeps that new refresh text; the model's failure branch keeps the old text, so it covers only fetch and parse failures.
- Network I/O (`fetch` in `loadEvents` and `triggerRefresh`, and the upstream fetch) is not modelled. `loadEvents` receives the payload, or the fact that loading failed; the handler receives the anchors, or the message of the fetch failure.
- `triggerRefresh` is not modelled: it is a fetch followed by `loadEvents`.
- cheerio's parsing and `closest("tr, li, div")` are not modelled. The page arrives as a sequence of anchors, each carrying its text, the text of its container and its `href`.
- `toLocaleDateString` and `toLocaleString` are not modelled. A card's date line is modelled as which dates it shows.
- ClientFilter.TitleOrder: `localeCompare` is modelled as code-point order, not by the locale's collation rules.
- Text.ToLower: only ASCII letters are lowered; the full Unicode case mapping is not modelled.
- Text.Trim: white space is the Unicode set `\s` and `trim` use, on characters; UTF-16 surrogate pairs are not modelled.
- SyncEvents.Qualifies: `title.length < 4` (sync-events.mjs:19) counts UTF-16 code units; the model counts characters, which differs for characters outside the Basic Multilingual Plane.
- ClientFilter.OptionList: `.sort()` without a comparator (app.js:160-162) orders by UTF-16 code unit; the model orders by code point, which differs only when characters outside the Basic Multilingual Plane meet characters from U+E000 to U+FFFF.
- ClientFilter.OverlapInRange: a bound whose time value is exactly 0 is falsy in JavaScript; that instant lies on January 1, 1970, and whether a date maps to it depends on the time zone, which is not modelled.
- IsoDate.ParseDateOnly: expanded years `±YYYYYY` (`±YYYYYY`, `±YYYYYY-MM`, `±YYYYYY-MM-DD`) read as NaN here, while `Date` reads them. `OverlapInRange` therefore lets an event with such a date through and ignores such a bound. `IsoDayText` writes this form for years above 9999 and below 0, which the extractor only produces for years outside 1000–9000.
- IsoDate.ParseDateOnly: days that do not exist in their month are treated as invalid. Engines differ on such strings, and on other formats they read outside the standard.
- Time zones are not modelled: `new Date(y, m, d)` and `toISOString` are taken in UTC, so no date shifts by a day.
- SyncEvents.InTimeRange: the limits of a `Date` are checked by day, at midnight.
- SyncEvents.ResolveHref: `new URL` normalisation is not modelled: dot segments, percent-encoding, query-only and fragment-only links, the `/` it adds to a bare origin such as `https://host`, and scheme-relative forms such as `https:foo`. Its "Invalid URL" exception (for example for `http://`) is not modelled either.
- SyncEvents.ExtractAllFails: it covers only the modelled exception, the `RangeError` of `toISOString`. An "Invalid URL" `TypeError` from `new URL` would also end the loop and give a 500 with its own message.
- The `id` from `crypto.randomUUID` is not modelled: it is random, and the client does not read it.
- SyncEvents.ExtractAll: the year is one parameter for the whole page; the source reads the clock once per anchor, so a page processed across midnight on New Year's Eve could mix two years.
- The `Content-Type` header of the responses is not modelled.
- netlify/functions/sync-events.mjs and netlify/functions/events.mjs are not part of this model.
