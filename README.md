# Court fixture board: match selection, modelled in Dafny

The board in `app.js` fetches a fixture feed as comma-separated text. Each
fixture row has a court label, a `YYYY-MM-DD` date and a clock time such as
`3:00 PM`. For every court, the board shows the match to look at now. That is
either the match being played (started less than ten minutes ago) or the next
one to start.

This project models the four pieces that make that decision:

- `parseCSV` (module `Csv`, on the string built-ins in `Text`). The text is
  trimmed and cut at every newline. The first line gives the header names. Every
  further line becomes a record keyed by those names.
- `parseMatchTime` (module `MatchTime`, with lemmas in `MatchTimeFacts`). It
  finds the first `H:MM` or `HH:MM`, with an optional case-insensitive `AM`/`PM`,
  and turns it into an instant.
- `getNextMatchPerCourt` (module `CourtSelect`). It groups rows by court, keeps
  those whose time parses, sorts each court's bucket stably by start, and picks
  the first match whose start plus ten minutes is still after `now`.
- The `isLive` test the card uses (`CourtSelect.IsLive`).

Instants are whole minutes: day number × 1440 + 60 × hour + minute. The day
number follows `new Date(year, month, day)`:
- years 0 to 99 mean 1900 to 1999;
- a month index outside 0..11 carries into the year;
- the day counts on linearly.

The wall clock `new Date()` is a parameter, in whole minutes. The selection
reads it once (app.js:68) and the card reads it again (app.js:135), so the status
lemma takes two readings, `chosenAt <= shownAt`. Both comparisons the code makes
(`now < start + 10` and `now >= start`) are against whole minutes, so flooring
the clock to the minute gives the same answers.

How each piece is modelled:

- **Selection.** It is proved equal to a reference defined without sorting,
  `CourtSelect.EarliestIndex`: the eligible match with the smallest start, with
  feed order deciding ties. `IsNextAt` characterises that reference.
- **Sorting.** `Array.prototype.sort` is stable (ECMAScript 2019 onwards). It is
  modelled as a stable insertion sort, proved sorted, a permutation and stable.
- **Time pattern.** The regular expression keeps its real search behaviour: the
  leftmost match, trying two hour digits before one. `FindClockLeftmost` states
  this. Exact `H:MM [AM|PM]` texts are covered by `ExactClock` and the round-trip
  lemmas.
- **Imperative code.** The loops of `parseCSV` and `getNextMatchPerCourt` are
  methods. Each method is proved against the function that specifies it.

## Model

| member | source | states |
|---|---|---|
| Text.TrimStart | app.js:19 | the result is a suffix of the input, only whitespace was dropped, and it does not start with whitespace |
| Text.TrimEnd | app.js:20 | the result is a prefix of the input, only whitespace was dropped, and it does not end with whitespace |
| Text.Trim | app.js:19 | `String.prototype.trim`: leading, then trailing ECMAScript whitespace removed |
| Text.TrimIsTrimOf | app.js:19-20 | `trim` leaves a middle slice of the text: whitespace on both sides of it, none at its ends |
| Text.TrimIdempotent | app.js:24 | trimming twice is trimming once |
| Text.Split | app.js:19-20 | `split` yields one piece more than there are separators; no piece holds the separator; the pieces joined with it give back the text |
| Text.SplitUnique | app.js:24 | those pieces are the only separator-free pieces that join back to the text, so every separator cuts and nothing is quoted |
| Text.DigitsValue | app.js:42-44 | `parseInt` of n decimal digits is below 10^n |
| Csv.Headers | app.js:20 | the header names are the first line's comma-separated fields: one more than its commas, none holding a comma or whitespace at either end |
| Csv.Lines | app.js:19 | the feed has one line more than the trimmed text has newlines |
| Csv.Fields | app.js:24 | a line has one field more than it has commas |
| Csv.ValueAt | app.js:27 | a field read with the empty-string fallback: the field at that position, or `''` past the end of the line |
| Csv.BuildRow | app.js:25-28 | the record's keys are exactly the header names; each name holds the field under its last occurrence among the headers, and `''` where the line has no such field |
| Csv.ParseCsv | app.js:18-33 | exactly one record per line after the header, blank lines included, each built by `BuildRow` from that line's fields |
| Csv.LastOccurrence | app.js:26-28 | every header name has a last occurrence, and that is the assignment that stays |
| Csv.RowValue | app.js:26-28 | every key of a record holds the field under some header of that name |
| Csv.RowForUnique | app.js:25-28 | the keys-and-last-occurrence description determines the record completely |
| Csv.BlankLineFields | app.js:24 | a blank line has exactly one field, and it is empty |
| Csv.BlankLineRow | app.js:23-29 | a blank data line is kept, as a record whose every value is `''` |
| MatchTime.SkipWhitespace | app.js:46 | `\s*` stops at the end or at the first non-whitespace character, and consumes only whitespace |
| MatchTime.ClockAt | app.js:46 | the pattern tried at one position matches exactly when one or two hour digits, a colon and two minute digits start there; the hour and minute read are below 100 |
| MatchTime.FindClock | app.js:46-47 | `timeStr.match`: a clock at the very start is the one found; a text shorter than four characters has none; a found hour and minute are below 100 |
| MatchTime.FindClockLeftmost | app.js:46-49 | the search returns the match at the leftmost position where the pattern matches, and returns nothing only when no position matches |
| MatchTime.ParseMatchTime | app.js:36-64 | the result is `null` exactly when the time is empty, is `"N/A"`, or holds no clock the pattern matches anywhere |
| MatchTime.Hour24 | app.js:51-61 | without a marker the hour is kept; with a marker and an hour up to 12 the result is an hour of the day (below 24), in the afternoon exactly for PM |
| MatchTime.DayNumber | app.js:63 | `new Date(year, month, day)` as a day count: years 0 to 99 are 1900 to 1999, the month index carries into the year, and the day counts on from the first |
| MatchTime.Midnight | app.js:41-44 | local midnight of the date: the day number of its three `parseInt` parts, with the month one lower, times 1440 minutes |
| MatchTimeFacts.TwelveHourConversion | app.js:55-61 | for every hour the pattern reads (0 to 99): PM adds 12 except to 12, AM turns 12 into 0 and keeps other hours, no marker keeps the hour; on hours 1 to 12 this is the usual 12-hour rule |
| MatchTimeFacts.Epoch | app.js:63 | the day number of 1 January 1970 is 0 |
| MatchTimeFacts.LeapDayOverflow | app.js:63 | `new Date(2024, 1, 30)` is 1 March 2024 (day overflow past a leap February) |
| MatchTimeFacts.MonthOverflow | app.js:63 | for years from 100 on, a month index twelve higher is the same month of the next year (below 100 the 1900 offset breaks this: `new Date(99, 12, 1)` is 1 January 2000) |
| MatchTimeFacts.MarchToMarch | app.js:63 | from one 1 March to the next there are 366 days when the later year is a Gregorian leap year, 365 otherwise |
| MatchTimeFacts.MonthLength | app.js:63 | for every year from 100 on and every month, the first of the next month is exactly the Gregorian length of the month later, checked against an independent month-length table |
| MatchTimeFacts.ClockAtStart | app.js:46 | a time starting with `H:MM` or `HH:MM` reads that clock whatever follows, with the marker found after the following whitespace |
| MatchTimeFacts.ExactClock | app.js:46 | `H:MM`, then whitespace, then an optional `AM`/`PM` in any letter case, reads hour, minute and marker back exactly |
| MatchTimeFacts.TwelveHourClock | app.js:46-53 | a 24-hour reading written the 12-hour way ("3:05 PM") is found as that 12-hour clock with its marker |
| MatchTimeFacts.TwelveHourRoundTrip | app.js:36-64 | every minute of the day written the 12-hour way parses back to midnight + 60 × hour + minute |
| MatchTimeFacts.MarkedClockInstant | app.js:46-63 | no range check follows the pattern: any one- or two-digit hour and two-digit minute with a marker gives midnight plus the converted hour and the minutes; "13:00 PM" lands on the next day |
| MatchTimeFacts.TwentyFourHourRoundTrip | app.js:36-64 | every minute of the day written without a marker parses back to the same instant |
| MatchTimeFacts.NoDigitsNoInstant | app.js:46-49 | a time with no digit (such as "TBA") holds no clock and gives `null` for any date |
| CourtSelect.Parsable | app.js:37-44 | a row whose time is empty or `"N/A"` always reaches the early `null`; without a `Date` column that is the only way a row can be processed, since `dateStr.split` would throw |
| CourtSelect.StartOf | app.js:77 | `parseMatchTime(match.Time, match.Date)`, an absent column read as `""` (`TimeText`, `DateText`): no `Time` column gives `null`, and `null` comes exactly for an empty time, `"N/A"`, or no clock |
| CourtSelect.CourtOf | app.js:72 | the court label is never empty: the row's `Court` field when it is present and non-empty, else "Unknown Court" |
| CourtSelect.Eligible | app.js:93-95 | a match is still to be shown while `now` is before its start plus ten minutes |
| CourtSelect.BucketComplete | app.js:71-82 | every row of the court whose time parses is in the court's bucket, with its start |
| CourtSelect.Bucket | app.js:71-82 | a court's bucket holds only feed rows of that court, each with the start its time parses to |
| CourtSelect.EarliestIndex | app.js:86-99 | the reference choice satisfies `IsNextAt`: it is eligible, everything starting earlier is not, and no entry with the same start comes before it; with no choice, nothing is eligible |
| CourtSelect.Earliest | app.js:86-99 | the reference match is the one to show, and there is none exactly when no match is eligible |
| CourtSelect.IsNextAtUnique | app.js:91-98 | at most one match of a bucket is the one to show |
| CourtSelect.Insert | app.js:87 | one insertion step adds exactly the new element (multiset) |
| CourtSelect.InsertSorted | app.js:87 | inserting into a sorted list keeps it sorted |
| CourtSelect.SortByStart | app.js:87 | the sorted bucket is in ascending start order and is a permutation of the bucket |
| CourtSelect.InsertWithStart | app.js:87 | inserting places the new element after the elements with its start and leaves the order of the others unchanged |
| CourtSelect.SortIsStable | app.js:87 | for every start, the matches with that start keep their feed order |
| CourtSelect.FirstEligible | app.js:91-99 | the scan returns an eligible match of the list, or nothing when no entry is eligible |
| CourtSelect.FirstEligibleInsert | app.js:87-99 | on a sorted list, inserting a match changes the first eligible match exactly as one step of the reference does |
| CourtSelect.SortThenScan | app.js:87-99 | sorting stably and then taking the first eligible match gives the reference selection |
| CourtSelect.ScanForNext | app.js:89-99 | the `for … break` loop returns the first eligible match: eligible, with every match before it not eligible, and nothing only when none is eligible |
| CourtSelect.NextPerCourt | app.js:67-107 | the result's keys are courts of the feed; a court is present exactly when its bucket has an eligible match; its match is the one to show, a feed row of that court whose time parses, with `now < start + 10` |
| CourtSelect.GroupingKeys | app.js:71-75 | the grouping has a bucket for exactly the court labels of the feed, including courts none of whose times parse |
| CourtSelect.GroupStep | app.js:72-81 | one pass of the grouping `forEach`: the row's court is added to the keys, every other bucket is unchanged, and the row's bucket gains the row with its start exactly when its time parses |
| CourtSelect.GroupingIsBuckets | app.js:71-82 | each bucket of the grouping is that court's parsed rows in feed order |
| CourtSelect.GroupByCourt | app.js:71-82 | the grouping loop yields a bucket for exactly the courts of the feed, each holding that court's parsed rows in feed order |
| CourtSelect.GroupStepAsWritten | app.js:73-80 | on a plain object, a parsed row on a court named after an inherited property makes the step throw; no other step throws |
| CourtSelect.InheritedCourtThrows | app.js:73-80 | a parsed fixture on court "constructor" throws |
| CourtSelect.AsWrittenAgrees | app.js:73-80 | for any label that is not an inherited name the step as written is exactly `GroupStep`, the step `Grouping` takes |
| CourtSelect.GroupAsWritten | app.js:71-82 | the grouping as written over a whole feed never holds an inherited name as an own key |
| CourtSelect.AsWrittenThrows | app.js:71-82 | the grouping as written throws exactly when some row whose time parses is on a court named after an inherited property |
| CourtSelect.AsWrittenFeed | app.js:71-82 | on a feed with no court named after an inherited property, the grouping as written builds exactly `Grouping` |
| CourtSelect.PickPerCourt | app.js:86-104 | the per-court loop keeps only courts that have buckets, and maps each court to the reference selection of its bucket, leaving out a court with none |
| CourtSelect.NextOfCourt | app.js:87-99 | sorting then scanning a bucket yields the first eligible match of the sorted bucket, which is the reference selection |
| CourtSelect.GetNextMatchPerCourt | app.js:67-107 | the result equals `NextPerCourt`: the reference selection for every court of the feed |
| CourtSelect.IsLive | app.js:139 | a match is live when the clock has reached its start and not yet its start plus ten minutes |
| CourtSelect.SelectedStatus | app.js:135-139 | for a match selected at one clock reading and drawn at a later one: not yet started means upcoming; with equal readings it is live exactly when it has started; a started match is shown upcoming only when its window closed between the readings |
| CourtSelect.StaleUpcoming | app.js:135-139 | a lone fixture selected in the last minute of its window and drawn a minute later is selected yet shown upcoming although it has started |
| CourtSelect.OneFixture | app.js:86-104 | for a single fixture at T: its court shows it while `now < T + 10` and nothing afterwards; it is live exactly when `T <= now` |
| CourtSelect.TwoFixtures | app.js:86-104 | once the earlier fixture's window has closed and before the later one starts, the court shows the later one, as upcoming |
| CourtSelect.SelectionAdvances | app.js:91-99 | as `now` advances, a court's choice only moves to later starts, and a court with a match to show later had one earlier too |
| Scenarios.FixtureStart | app.js:77 | a fixture written "H:MM AM/PM" on a valid date starts at midnight of the date plus its 24-hour reading |
| Scenarios.SingleFixtureDay | app.js:77-103 | a single fixture at T (for example "3:00 PM") is upcoming before T, live until T + 10, and absent from then on |

## Left out

- MatchTime.ClockAt: its contract states when the pattern matches and the bounds, not which marker it reads. The marker after the greedy `\s*` is stated by `MatchTimeFacts.ClockAtStart` and `MatchTimeFacts.ExactClock`.
- MatchTime.FindClock: its contract states only a clock at the very start, the too-short case and the bounds. The full leftmost-match property is proved in `MatchTime.FindClockLeftmost`. It is kept out of the contract so that every start time does not carry its quantifiers.
- `fetchCSV` and `loadMatches` (app.js:9-15, 208-228). These are network I/O and error display.
- `init` and its `setInterval` timers (app.js:231-245). They only schedule the other calls.
- The DOM rendering in `displayMatches`, `escapeHtml` and the clock and last-update displays. They produce HTML and locale text, not decisions. Of this code, only the `isLive` test at app.js:139 is modelled.
- The wall clock. The readings `new Date()` at app.js:68 and app.js:135 are parameters: `NextPerCourt` takes the first, `SelectedStatus` both. Their order (`chosenAt <= shownAt`) is assumed, not read from a clock.
- Local time zones and daylight-saving shifts. Every day is 1440 minutes.
- Malformed dates. Past the early `null` return, `Parsable` requires a `Date` column. When a clock is found, it also requires that the first three `-`-separated parts be 1 to 4 decimal digits. Other dates are not modelled. Some give `NaN` and an Invalid Date in the source. Others `parseInt` still reads by its prefix rule, and the source then schedules the row normally: leading whitespace, a `+` sign, trailing non-digits (the day part `10T15:00` of an ISO date-time reads as 10) and more than four digits.
- `parseInt` is modelled only on pure digit strings. Those are the only strings the pattern and the date precondition hand it.
- The `match.parsedTime` write (app.js:79) is not done in place. Each kept row is returned as a `Scheduled` value paired with its start. Aliasing between the rows and the buckets is therefore not modelled.
- The order of `Object.keys` (insertion order) is not kept. Results are Dafny maps. The displayed court order comes from a separate `sort()` in the rendering code.
- A `__proto__` header is not modelled in `parseCSV`. The value assigned is always a string, which the `__proto__` setter ignores, so the source silently drops that column: no key is added and the prototype does not change. The model keeps it as an ordinary key.
- Court labels that are inherited object properties are not handled as the source does in the selection itself. `GroupStepAsWritten` and `GroupAsWritten` model that behaviour (see Findings). The modelled selection gives every label its own bucket.
- The source does not skip blank lines and does not handle quoted fields. The model follows the code: a blank data line becomes a record of empty values, and every comma splits.

## Findings

| source | as written | input that shows it | evidently intended | confidence | as-written member | corrected member |
|---|---|---|---|---|---|---|
| app.js:73-80 | `if (!courtMatches[court])` reads inherited properties of the plain object, so no bucket is made for a court named like one; the following `courtMatches[court].push(match)` calls `push` on the inherited value, which has none, and throws | a row with `Court` = `constructor` (or `toString`, `valueOf`, …) and a time that parses | every court label gets its own bucket, as for any other label | not executed | CourtSelect.AsWrittenThrows | CourtSelect.GroupByCourt |
