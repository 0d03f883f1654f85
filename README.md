# Star Rail wiki event extractor — verified model

This project models the core of `getAllEvents` in `src/WikiController.ts`. The function reads two
wiki pages, the version history and the event list, and turns the event list into events with
absolute start and end dates. The model covers its three parts:

- **Version timeline** (module `Timeline`). Every data row of the version table becomes an entry
  `key → {start, end}` in a dictionary. The key is the header-cell text without its first line
  break. `start` is the first data cell parsed as a UTC+8 date. `end` is `start` plus 42 days. A
  later row with the same key overwrites the earlier entry. `Timeline.BuildTimeline` is the loop.
  It is proved equal to the specification function `Timeline.Build`, about which the
  last-write-wins, key-set and six-week lemmas are proved.
- **Date-phrase resolver `handleDateStr`** (modules `Pattern`, `Resolver`, `JsDate`, `Calendar`).
  `Resolver.Resolve` tries, in order:
  1. `x.y版本更新后` → the version's start; an unknown version is an error;
  2. `x.y版本结束前` → the version's end, or the month-end fallback as the code computes it:
     midnight UTC of the last day of the current UTC month, or of the NEXT month when today's
     day of the month does not exist in the next month (see "## Findings");
  3. `x.y版本结束` → the version's end; an unknown version is an error;
  4. `正式开服后` → 2023-06-05T19:59:00.000Z;
  5. anything else → the phrase parsed as a UTC+8 date.

  The regular expressions `/(\d+\.\d+)SUFFIX/` are modelled by `Pattern.Exec`. It is proved to
  return the version number of the LEFTMOST match, against a declarative definition of a match
  (`Pattern.FirstMatch`, `Pattern.NoMatch`). The month-end fallback is modelled on ECMAScript's
  `Date` arithmetic (`Day`, `MakeDay`, `setUTCMonth`, `setUTCDate`) over an exact proleptic
  Gregorian calendar. The calendar is proved to round-trip.
- **Event loop** (modules `Events`, `Text`). The first row of the event table is skipped. A row
  whose `", "`-separated category list contains `特殊活动` or `永久活动` is dropped. The time cell,
  after removing its first line break, is split on `~`, and the two ends are resolved, start
  first. Each kept row pushes one event. The first error thrown aborts the extraction.
  `Events.GetAllEvents` is the loop. It is proved equal to the fold `Events.Loop`, about which
  the order, filtering and first-error lemmas are proved.

Dates are `JsDate.Date`: a time value in milliseconds since the epoch, or the invalid date that
`new Date(s)` yields for an unparsable string.

Parameters stand for what lies outside the model:
- the clock is `now` (milliseconds);
- JavaScript's date-string parser is `parse: string -> Date`;
- the crc32 checksum is `hash: string -> string`;
- the two HTML tables arrive as sequences of already-extracted cell texts (`Timeline.VersionRow`
  and `Events.EventRow`).

Behaviours of the code that the model reproduces as they are:
- **Fallback date.** The code moves to the next month with `setUTCMonth(getUTCMonth() + 1)`,
  steps back with `setUTCDate(0)` and clears the time of day (`src/WikiController.ts:42-48`).
  This is midnight UTC on the last day of the current UTC month, as the comment at line 41
  intends, except when today's day of the month does not exist in the next month: then
  `setUTCMonth` overflows and the result is the last day of the NEXT month. `Resolver.Resolve`
  uses this computation as written (`JsDate.MonthEndAsWritten`); see "## Findings".
- **Unparsable dates** are not an error. `new Date` returns the invalid date and the code goes on.
- **The event id** is the checksum of the second cell (`td` 1), not of the name cell.
- **Line breaks.** Only the first `'\n'` of each cell is removed (`replace` with a string pattern).
- **Duplicate version rows** silently overwrite earlier ones.
- **A time cell without `~`.** Destructuring leaves `endStr` undefined. `exec` then sees the
  string "undefined", which matches no pattern, so the end becomes
  `parse("undefined UTC+0800")`. Pieces after a second `~` are ignored. The model reproduces
  both behaviours (`Events.TimeEnds`) rather than rejecting such cells.

## Model

| member | source | states |
|---|---|---|
| Timeline.BuildTimeline | src/WikiController.ts:14-23 | the loop leaves the dictionary equal to `Build(rows)`, and every entry's end is its start plus 42 × 86 400 000 ms (invalid start gives invalid end) |
| Timeline.KeyOf | src/WikiController.ts:17 | a row's key is its header-cell text with only its first line break removed |
| Timeline.IntervalOf | src/WikiController.ts:18-20 | a row's window starts at its first data cell (first line break removed) parsed as a UTC+8 date, and is six weeks long: the end is the start plus 42 × 86 400 000 ms, or invalid when the start is |
| Timeline.Build | src/WikiController.ts:16-22 | the dictionary after writing each row's window under its key, in row order, so a later row overwrites an earlier one (its properties: `BuildKeys`, `BuildLastWriteWins`, `BuildSixWeeks`) |
| Timeline.BuildKeys | src/WikiController.ts:16-22 | a key is in the timeline iff some row's header text, first line break removed, equals it |
| Timeline.BuildLastWriteWins | src/WikiController.ts:17-22 | the entry for a key is the interval of the LAST row with that key |
| Timeline.AppendRowOverwrites | src/WikiController.ts:22 | writing one more row sets its key to its interval and leaves every other key (presence and value) unchanged |
| Timeline.BuildSixWeeks | src/WikiController.ts:18-20 | every window of the timeline ends exactly 42 days after it starts; the end is computed, never read |
| Text.RemoveFirst | src/WikiController.ts:17 | `replace('\n', '')` removes exactly the first occurrence: unchanged when absent, otherwise one character shorter, cut at the first occurrence |
| Text.Split | src/WikiController.ts:73 | `split(sep)` yields at least one piece, the pieces joined by `sep` give back the input, and no piece contains `sep` |
| Text.SplitJoin | src/WikiController.ts:73 | splitting pieces joined by a separator that cannot overlap itself (such as `", "` or `~`) gives the pieces back |
| Text.IndexOfFindsContains | src/WikiController.ts:61-62 | the substring search finds `正式开服后` iff the phrase contains it |
| Text.IndexOf | src/WikiController.ts:61 | the search for `正式开服后` returns the leftmost position at or after `from` where the text occurs, and nothing only when it occurs nowhere from there on |
| Pattern.Exec | src/WikiController.ts:26 | `/(\d+\.\d+)SUFFIX/.exec` captures `key` iff the leftmost match is at a position where `key` (digits '.' digits) followed by the suffix occurs; no result iff no position matches |
| Pattern.MatchAtIsMatch | src/WikiController.ts:26 | the match attempt at one position succeeds iff the regex matches there, and then captures the only version number it can: greedy `\d+` takes whole digit runs |
| Pattern.FindFromIsFirstAttempt | src/WikiController.ts:26 | the unanchored search returns the attempt at the first position, from left to right, where it succeeds, and nothing when every position fails |
| Pattern.LongerSuffixMatchesShorter | src/WikiController.ts:53 | every match of `x.y版本结束前` is a match of `x.y版本结束` at the same place with the same version number |
| Resolver.Resolve | src/WikiController.ts:24-67 | the only failure is an unknown version number captured by the leftmost `版本更新后` match, or by the leftmost `版本结束` match when neither earlier pattern matched |
| Resolver.ResolveAfterUpdate | src/WikiController.ts:26-31 | with a leftmost `x.y版本更新后` match, the result is the start of x.y, or the error "Cannot find version: x.y", whatever else the phrase holds |
| Resolver.ResolveBeforeEnd | src/WikiController.ts:34-49 | without rule 1 and with a leftmost `x.y版本结束前` match, the result is the end of x.y, or the month-end fallback exactly as the code computes it from `now` (`MonthEndAsWritten(now)`); never an error |
| Resolver.ResolveAtEnd | src/WikiController.ts:53-58 | without rules 1-2 and with a leftmost `x.y版本结束` match, the result is the end of x.y or the error |
| Resolver.ResolveLaunch | src/WikiController.ts:61-64 | without a version phrase, a phrase containing `正式开服后` gives 2023-06-05T19:59:00.000Z |
| JsDate.LaunchInstant | src/WikiController.ts:63 | the launch constant 1 685 995 140 000 ms is 2023-06-05 (UTC), 19:59:00.000 into the day |
| Resolver.ResolveAbsolute | src/WikiController.ts:66 | otherwise the result is `parse(phrase + " UTC+0800")` |
| Resolver.BeforeEndShadowsAtEnd | src/WikiController.ts:34-58 | a phrase that rule 2 resolves also matches rule 3's pattern, yet never fails: the order of the rules is what prevents the error |
| Resolver.ResolveWithoutVersion | src/WikiController.ts:61-66 | a phrase with no version match resolves the same for every timeline and clock, and never fails |
| JsDate.MonthEnd | src/WikiController.ts:40-49 | the fallback as intended: a time value at 00:00:00.000 UTC, on the last day of the UTC month of `now`, not before `now`'s day |
| JsDate.AddDays | src/WikiController.ts:19-20 | adding `n` days keeps the time of day and moves the day number by exactly `n`; an invalid date stays invalid |
| JsDate.SetUtcMonth | src/WikiController.ts:43 | `setUTCMonth(month0)` keeps the time of day and moves to day MakeDay(year, month0, day of month), so a day past the new month's end carries over |
| JsDate.SetUtcDate | src/WikiController.ts:44 | `setUTCDate(date)` keeps the time of day and moves to day MakeDay(year, month − 1, date); date 0 is the day before the first of the month |
| JsDate.StartOfUtcDay | src/WikiController.ts:45-48 | clearing hours, minutes, seconds and milliseconds gives the midnight UTC that starts the same day: a multiple of a day, at most the input and less than a day before it |
| JsDate.MonthEndAsWritten | src/WikiController.ts:42-48 | the fallback as written is at 00:00 UTC; it equals the intended month end iff today's day of month exists in the next month, and otherwise is the last day of the NEXT month |
| JsDate.MonthEndOverflowsOnJanuary31 | src/WikiController.ts:43-44 | at now = 1 706 715 000 000 ms (2024-01-31T15:30Z) the code yields 2024-02-29T00:00Z while the current month ends 2024-01-31T00:00Z |
| JsDate.OverflowIntoNextMonth | src/WikiController.ts:43 | a day of the month past the month's end, as `setUTCMonth` keeps it, falls that many days into the following month |
| Calendar.CivilFromDays | src/WikiController.ts:43 | the UTC calendar date of a day number is a valid date (month 1-12, day within the month's length) |
| Calendar.MakeDay | src/WikiController.ts:43-44 | ECMAScript MakeDay: the month counted from 0 carries into the year by Euclidean division, and the date is added to the first of that month, with no range check (its use: `JsDate.MakeDayOfMonth`, `JsDate.MakeDayOfNextMonth`, `JsDate.OverflowIntoNextMonth`) |
| Calendar.CivilFromDaysInverse | src/WikiController.ts:43 | the date read off a day number maps back to that day number |
| Calendar.CivilRoundTrip | src/WikiController.ts:43-44 | every valid calendar date maps to a day number and back to itself |
| Calendar.MonthsAreAdjacent | src/WikiController.ts:44 | the last day of a month is immediately followed by the first day of the next month (what `setUTCDate(0)` relies on) |
| Events.DataRows | src/WikiController.ts:71 | `.slice(1)`: the table is its first row followed by the data rows |
| Events.IsExcluded | src/WikiController.ts:72-76 | a row is skipped when its category attribute, split on `", "`, has a piece equal to 特殊活动 or 永久活动 (its meaning: `ExcludedCategories`) |
| Events.TimeEnds | src/WikiController.ts:78-79 | the two ends of a time cell: the first two `~`-pieces of the cell without its first line break, "undefined" for a missing second piece; neither end contains `~` |
| Events.Handle | src/WikiController.ts:72-86 | the `.each` callback: nothing for a skipped row, otherwise the event built from the row or the error thrown while building it |
| Events.Loop | src/WikiController.ts:71-87 | the fold that the loop computes: the events pushed for the rows so far, or the first error thrown, after which no row is handled (its properties: `LoopEvents`, `LoopSucceeds`, `LoopFails`) |
| Events.BuildEvent | src/WikiController.ts:78-86 | an event is built iff both ends resolve; the start's error wins over the end's; start and end are the resolved first and second `~` pieces, description the raw category, name and id from cells 2 and 1 with the first line break removed |
| Events.Kept | src/WikiController.ts:72-76 | the rows that are not dropped, in order: none of them is tagged 特殊活动 or 永久活动 |
| Events.KeptAppend | src/WikiController.ts:71-76 | the kept rows of a concatenation are the kept rows of its first part followed by those of its second part: the filter keeps the table's order |
| Events.KeptMembers | src/WikiController.ts:71-76 | a row is kept iff it is a row of the table and the handler does not skip it |
| Events.GetAllEvents | src/WikiController.ts:14-88 | the method's result equals the fold `Loop` over the data rows with the handler built on the timeline of the version rows |
| Events.EachRow | src/WikiController.ts:71-87 | the `.each` loop with a row callback returns exactly the fold `Loop`: the events of the handled rows in order, or the first error thrown |
| Events.LoopFailureIsFinal | src/WikiController.ts:84-85 | once a row throws, the whole extraction fails with that error |
| Events.LoopEvents | src/WikiController.ts:71-87 | on success there is exactly one event per kept row, in row order, each the one built from its row |
| Events.LoopSucceedsWhenAllBuild | src/WikiController.ts:80-86 | when every kept row builds, the extraction succeeds |
| Events.LoopSucceeds | src/WikiController.ts:80-86 | the extraction succeeds iff every kept row builds |
| Events.LoopFails | src/WikiController.ts:84-85 | on failure, the error is that of the first kept row that fails, and every earlier kept row built |
| Events.ExcludedCategories | src/WikiController.ts:72-76 | a category list `t1, t2, …` is dropped iff one of its tags is exactly 特殊活动 or 永久活动; a longer tag that merely contains the word is not |
| Events.TimeEndsOfPieces | src/WikiController.ts:78-79 | a time cell that reads `a~b~…` once its first line break is removed gives start `a` and end `b`; further pieces are ignored |
| Events.TimeEndsWithoutTilde | src/WikiController.ts:78-79 | a time cell without `~` (after removing its first line break) is all start, and its end `"undefined"` resolves to `parse("undefined UTC+0800")` |

## Left out

- Network fetches and the async wrapper (`src/WikiController.ts:8,10`): I/O.
- Cheerio loading and the CSS selectors (`src/WikiController.ts:13,16,69,71-72,78,81-82`): a
  foreign library. The tables are inputs given as cell texts. The version selector already
  leaves out that table's header row, so `Timeline.BuildTimeline` takes data rows only. The
  event table's `.slice(1)` is code, so `Events.GetAllEvents` drops its first row itself.
- `new Date(string)` (`src/WikiController.ts:18,66`): a parameter `parse`, because its format
  rules are engine-dependent. `crc32` (`src/WikiController.ts:81`): a parameter `hash`.
- The clock: `new Date()` in the fallback becomes the parameter `now`, read once per run where
  the code reads it at each fallback.
- Timeline.BuildTimeline: `setDate(getDate() + 42)` works in the runtime's local time zone, so
  across a daylight-saving change it is not exactly 42 × 86 400 000 ms. The model assumes days of
  86 400 000 ms.
- The ECMAScript TimeClip range (±8.64e15 ms), beyond which a `Date` becomes invalid: time values
  are unbounded integers.
- A row without a `data-param1` attribute: the non-null assertion at `src/WikiController.ts:72`
  would make `split` throw a TypeError. Every `Events.EventRow` has a category string.
- A header cell whose text is `__proto__` would set the dictionary's prototype instead of an
  entry. The model treats every key as an ordinary entry. Keys looked up by the resolver are
  version numbers, which never clash with inherited properties.
- Events.Event: the id is whatever `hash` returns; the declared type of the crc32 result
  (`src/type/EventType.ts`) is not part of this model.

## Findings

| source | as written | input that shows it | evidently intended | confidence | as-written member | corrected member |
|---|---|---|---|---|---|---|
| src/WikiController.ts:42-48 | `setUTCMonth(getUTCMonth() + 1)` keeps the day of the month, so on the 29th-31st it can overflow into the month after next; `setUTCDate(0)` then lands on the last day of NEXT month | now = 2024-01-31T15:30:00Z (1 706 715 000 000 ms) gives 2024-02-29T00:00:00Z | midnight UTC on the last day of the current month (the comment at line 41: a date at the end of this month), here 2024-01-31T00:00:00Z | not executed | JsDate.MonthEndAsWritten, JsDate.MonthEndOverflowsOnJanuary31 | JsDate.MonthEnd |

`Resolver.Resolve` models the code as written: its rule-2 fallback is `JsDate.MonthEndAsWritten`.
`JsDate.MonthEnd` is the corrected definition, and `JsDate.MonthEndAsWritten` is proved equal to it
exactly when today's day of the month exists in the next month.
