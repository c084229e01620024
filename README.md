# Activity tracker core, modelled in Dafny

The model covers the core of a small time-tracking application:

- **Backend insights service.** It computes total minutes per activity title over a time window. It can also split those totals into daily, weekly or monthly buckets.
- **Backend activity service.** It handles create, update and remove with an ownership check. It also answers three queries: a paged keyword search, today's activities and title suggestions.
- **Frontend state and helpers.** These are:
  - the two store slices, for todos and for the signed-in session;
  - the chart helpers: a colour hash and two duration formatters;
  - the date-range helper of the filter bar;
  - the helper that turns a failed request into a message.

Modules:

- `Wrappers`: Option and Result.
- `Decimal`, `Strings`: decimal rendering and parsing, and the case-insensitive substring test.
- `Collections`: filters, stable sorts, sums and first occurrences.
- `Civil`, `Timestamps`: the proleptic Gregorian calendar, UTC and local days of a millisecond timestamp, and `YYYY-MM-DD`.
- `TimeKeys`: the bucket keys.
- `ActivityRecords`: the activity row and the keyword filter.
- `Activities`, `Insights`: the two backend services.
- `Todos`, `Auth`, `Chart`, `DateRanges`, `Errors`: the frontend.

How things are represented:

- **Database.** The table is a sequence of rows. A `where` clause becomes a filter predicate, and an `orderBy` becomes a stable sort.
- **Mutable state.** It is held in classes: the activity table (`Activities.ActivityStore`), the todo list (`Todos.TodoList`) and the session (`Auth.AuthState`).
- **Clock and time zone.** The clock (`now`) and the time zone are parameters. Local time is UTC plus a fixed offset `tz`, in milliseconds.
- **Weeks.** The weekly buckets use the week formula exactly as the code writes it (`TimeKeys.WeekNumberAsWritten`), so a week runs from just after a Saturday local midnight to the next one. The Sunday-to-Saturday numbering the code evidently intended is modelled beside it (`TimeKeys.WeekNumber`, `TimeKeys.IntendedWeekKey`) and compared under "## Findings".

## Model

| member | source | states |
|---|---|---|
| ActivityRecords.TwoWordSearch | backend/src/activities/activities.service.ts:49-58 | a two-word search holds exactly when each word is in the title or the description, case-insensitively |
| ActivityRecords.BlankSearchMatchesAll | backend/src/insights/insights.service.ts:35-44 | a search made only of white space still adds a condition, and every row meets it |
| Activities.FindOne | backend/src/activities/activities.service.ts:77-91 | NotFound exactly when no row has the id; Forbidden exactly when the row belongs to another user; otherwise the row, with that id and that owner |
| Activities.PatchLaws | backend/src/activities/activities.service.ts:101-114 | an update keeps id and owner, applying it twice is the same as once, an empty update changes nothing, and two updates compose into one merged update |
| Activities.ActivityStore.constructor | backend/src/activities/activities.service.ts:18-19 | the table starts empty and valid |
| Activities.ActivityStore.Create | backend/src/activities/activities.service.ts:21-36 | appends one row with a fresh unique id, owned by the caller, with the given fields and the given timestamp or else `now`; ids stay unique |
| Activities.ActivityStore.Update | backend/src/activities/activities.service.ts:93-120 | fails exactly when findOne fails, with its error, and then leaves the table unchanged; otherwise it rewrites exactly that row with the present fields and returns it |
| Activities.ActivityStore.Remove | backend/src/activities/activities.service.ts:122-134 | fails exactly when findOne fails, and then leaves the table unchanged; otherwise it deletes exactly that row, returns the success message and id, and a later findOne gives NotFound |
| Activities.FindAll | backend/src/activities/activities.service.ts:38-75 | total counts every match; the page holds at most `limit` entries, taken from position `offset` of the matches ordered newest first |
| Activities.FindAllRows | backend/src/activities/activities.service.ts:44-66 | every row of a page belongs to the caller and meets the search, and the page runs newest first |
| Activities.FindAllDefault | backend/src/activities/activities.service.ts:38-43 | without paging arguments the page is the first 50 matches, newest first: a prefix of the ordered matches, of length min(50, total); with a limit, at most that many rows |
| Activities.TodayActivities | backend/src/activities/activities.service.ts:136-152 | exactly the caller's rows from local midnight (inclusive) to the next midnight (exclusive), newest first |
| Activities.TodayIsLocalDay | backend/src/activities/activities.service.ts:137-148 | the window [midnight, next midnight) is exactly the local calendar day of `now` |
| Activities.RankedTitles | backend/src/activities/activities.service.ts:170-180 | every title of the rows appears once and no other title does; most frequent first |
| Activities.TopTitlesRanked | backend/src/activities/activities.service.ts:170-182 | at most ten titles, distinct, ordered by count, each one present in the rows |
| Activities.TopTitlesOmission | backend/src/activities/activities.service.ts:176-181 | a title left out of the ten is used no more often than any of them, and ten were kept |
| Activities.Suggestions | backend/src/activities/activities.service.ts:154-188 | the top titles of the caller's rows that match the query; each count is the caller's full count of that title and is at least 1 |
| Activities.SuggestionsRanked | backend/src/activities/activities.service.ts:170-187 | at most ten suggestions, no title twice, highest counts first |
| Activities.SuggestionsOmitNoneMoreUsed | backend/src/activities/activities.service.ts:162-182 | a title of the caller's that matches the query but is not suggested is used no more often than every suggestion, and there are ten suggestions |
| Activities.CountUnderTitleFilter | backend/src/activities/activities.service.ts:162-167 | the query filters on the title alone, so for a matching title the grouped count equals the caller's total count of it |
| Insights.Matching | backend/src/insights/insights.service.ts:27-44 | exactly the caller's rows with start <= timestamp <= end that meet the search |
| Insights.OldestFirst | backend/src/insights/insights.service.ts:107-109 | a permutation of the rows ordered by ascending timestamp |
| Insights.TimePerTitle | backend/src/insights/insights.service.ts:46-62 | each entry holds the summed duration of its title, largest sum first |
| Insights.RankedByMinutesTitles | backend/src/insights/insights.service.ts:46-57 | the grouping lists every title of the rows once, and nothing else |
| Insights.TimePerTitleNames | backend/src/insights/insights.service.ts:46-62 | one entry per title present in the rows: no title twice, none missing, none invented |
| Insights.TimePerTitleConserves | backend/src/insights/insights.service.ts:46-62 | the entries add up to the total duration of the selected rows |
| Insights.GroupOfSummarises | backend/src/insights/insights.service.ts:113-124 | the group of one bucket lists its titles in first-met order, and each title's minutes are that title's summed duration within the bucket |
| Insights.GroupOfAbsent | backend/src/insights/insights.service.ts:118-120 | a key no activity produces has an empty group |
| Insights.GroupByBucket | backend/src/insights/insights.service.ts:113-124 | the map's keys are exactly the bucket keys, listed in first-met order, and each key's group is the summary of the activities under that key |
| Insights.FillCells | backend/src/insights/insights.service.ts:139-141 | after copying the titles, a cell exists for the label and for each title; a title's cell holds its minutes and overwrites an existing cell |
| Insights.BuildEntry | backend/src/insights/insights.service.ts:128-143 | the row is the label cell followed by every title cell of the group |
| Insights.ToRows | backend/src/insights/insights.service.ts:127-144 | one row per key, in key order, each one built from that key's group |
| Insights.StackedRows | backend/src/insights/insights.service.ts:112-144 | one row per bucket key in first-met order, each the entry of that bucket's group |
| Insights.StackedRowCells | backend/src/insights/insights.service.ts:127-144 | a row has a cell for the label and for each title in its bucket; a title's cell is that title's minutes in the bucket; the label keeps the key unless a title of the same name overwrote it |
| Insights.StackedKeys | backend/src/insights/insights.service.ts:113-127 | no bucket twice, in the order first met, and every activity's bucket has a row |
| Insights.SameRowSameBucket | backend/src/insights/insights.service.ts:115-116 | two activities share a row exactly when they fall in the same UTC day, in the same week of the same local year as the code counts weeks (from just after a local Saturday midnight to the next Saturday midnight), or in the same local month |
| Insights.GroupConserves | backend/src/insights/insights.service.ts:122-123 | a bucket's cells add up to the total duration of its activities |
| Insights.StackedConserves | backend/src/insights/insights.service.ts:112-144 | the cells of all buckets add up to the total duration of the activities |
| Insights.GetTimePerTitleStacked | backend/src/insights/insights.service.ts:74-155 | the selected activities, oldest first, become one row per bucket key in first-met order, each the entry of that bucket's group; the response carries the UTC dates of start and end and the interval |
| Insights.GetInsights | backend/src/insights/insights.service.ts:11-25 | a missing end defaults to now, a missing start to 30 days before now and a missing interval to daily; `timePerTitle` gives the per-title totals of the selected rows; `timePerTitleStacked` gives the stacked rows of the selected rows, oldest first; any other metric fails with "Invalid metric type" |
| TimeKeys.TimeKey | backend/src/insights/insights.service.ts:158-172 | the daily key parses back to the UTC date; the weekly key parses back to the local year and the week number computed as the code writes it; the monthly key parses back to the local year and month |
| TimeKeys.TimeKeySameBucket | backend/src/insights/insights.service.ts:158-178 | two instants get the same key exactly when they share the UTC day; or the local year and the week as the code counts it; or the local year and month |
| TimeKeys.WeekKeyRoundTrip | backend/src/insights/insights.service.ts:164 | `<year>-W<two digits>` parses back to its year and week |
| TimeKeys.MonthKeyRoundTrip | backend/src/insights/insights.service.ts:166-168 | `<year>-<two digits>` parses back to its year and month |
| TimeKeys.YearStart | backend/src/insights/insights.service.ts:175 | local midnight of January 1 of the local year, no later than the instant and less than a year before it |
| TimeKeys.WeekNumber | backend/src/insights/insights.service.ts:174-178 | the corrected week number (weeks run Sunday to Saturday, week 1 holds January 1) lies between 1 and 54 |
| TimeKeys.WeekNumberSameWeek | backend/src/insights/insights.service.ts:174-178 | within one local year, two instants get the same corrected week number exactly when they fall in the same Sunday-to-Saturday week |
| TimeKeys.WeekNumberMonotone | backend/src/insights/insights.service.ts:174-178 | within one year, a later instant never has a smaller corrected week number |
| TimeKeys.NewYearIsWeekOne | backend/src/insights/insights.service.ts:174-178 | by the corrected count, January 1 is in week 1 |
| TimeKeys.WeekNumberAsWrittenShift | backend/src/insights/insights.service.ts:174-178 | the formula as written is the corrected number, plus one for the part of a Saturday after midnight |
| TimeKeys.WeekNumberAsWritten | backend/src/insights/insights.service.ts:174-178 | `getWeekNumber` as written, a ceiling of fractional days since local January 1 plus its weekday and one, divided by 7; always between 1 and 54 |
| TimeKeys.AsWrittenWeekSpan | backend/src/insights/insights.service.ts:174-178 | a week as the code counts it runs from just after a local Saturday midnight up to and including the next Saturday midnight |
| TimeKeys.WeekNumberAsWrittenSameWeek | backend/src/insights/insights.service.ts:174-178 | within one local year, two instants get the same week number as written exactly when they fall in the same such Saturday-to-Saturday week |
| TimeKeys.WeekNumberAsWrittenMonotone | backend/src/insights/insights.service.ts:174-178 | within one year, a later instant never has a smaller week number as written |
| TimeKeys.NewYearAsWritten | backend/src/insights/insights.service.ts:174-178 | as written, January 1 is in week 1, except after midnight when it is a Saturday, when it is already week 2 |
| TimeKeys.IntendedWeekKey | backend/src/insights/insights.service.ts:162-164 | the corrected weekly key parses back to the local year and the corrected week number |
| TimeKeys.IntendedWeekKeySameWeek | backend/src/insights/insights.service.ts:162-164 | with the corrected key, two instants share a weekly bucket exactly when they fall in the same Sunday-to-Saturday week of the same local year |
| Civil.CivilFromDays | backend/src/insights/insights.service.ts:162-167 | the calendar date of a day number is a valid date that maps back to the same day number, so `getFullYear`, `getMonth` and `toISOString` read well-defined fields |
| TimeKeys.AsWrittenOnSaturday | backend/src/insights/insights.service.ts:174-178 | on a Saturday after local midnight the formula as written is one more than the corrected week number |
| TimeKeys.SaturdayCountsInNextWeek | backend/src/insights/insights.service.ts:174-178 | Saturday 4 January 2025 after midnight: week 1 as intended, week 2 as written |
| TimeKeys.SundayStartsWeekTwo | backend/src/insights/insights.service.ts:174-178 | Sunday 5 January 2025 opens week 2 |
| Timestamps.FullDateRoundTrip | backend/src/insights/insights.service.ts:160 | `YYYY-MM-DD` parses back to the date it was made from |
| Timestamps.IsoDatePartSameDay | backend/src/insights/insights.service.ts:66-69 | two instants have the same `toISOString` date exactly when they share a UTC day |
| Todos.TodoList.constructor | frontend/src/lib/redux/features/todos/todosSlice.ts:9 | the list starts empty |
| Todos.TodoList.AddTodo | frontend/src/lib/redux/features/todos/todosSlice.ts:15-17 | the todo is appended at the end and nothing else changes |
| Todos.TodoList.ToggleCompleted | frontend/src/lib/redux/features/todos/todosSlice.ts:18-23 | the new list is the toggled list: the flag of the first todo with the id is flipped, and nothing else changes |
| Todos.ToggledFlipsFirst | frontend/src/lib/redux/features/todos/todosSlice.ts:19-21 | only the first todo with the id changes, and only its flag |
| Todos.ToggledAbsent | frontend/src/lib/redux/features/todos/todosSlice.ts:20 | an id no todo carries leaves the list as it is |
| Todos.ToggledTwice | frontend/src/lib/redux/features/todos/todosSlice.ts:18-23 | toggling the same id twice restores the list |
| Todos.TodoList.DeleteTodo | frontend/src/lib/redux/features/todos/todosSlice.ts:24-26 | the new list is the filtered list |
| Todos.Deleted | frontend/src/lib/redux/features/todos/todosSlice.ts:25 | no remaining todo has the id, every todo without the id remains, and nothing is added |
| Todos.DeletedAppend | frontend/src/lib/redux/features/todos/todosSlice.ts:25 | filtering distributes over concatenation, so order is kept |
| Todos.DeletedIdempotent | frontend/src/lib/redux/features/todos/todosSlice.ts:24-26 | deleting twice is deleting once |
| Auth.AuthState.constructor | frontend/src/lib/features/auth/authSlice.ts:13-17 | no token, no user, not authenticated |
| Auth.AuthState.SetCredentials | frontend/src/lib/features/auth/authSlice.ts:23-30 | holds exactly the given token and user, is authenticated, and the flag agrees with the token and user |
| Auth.AuthState.Logout | frontend/src/lib/features/auth/authSlice.ts:31-35 | back to the initial signed-out state from any state, consistently |
| Chart.ToInt32Unique | frontend/src/lib/utils/chartUtils.ts:21 | the 32-bit conversion used by `<<` is the one value in [-2^31, 2^31) congruent to its argument |
| Chart.HashStepSmall | frontend/src/lib/utils/chartUtils.ts:20-22 | while the accumulator is below 2^26 in magnitude, a step is `31 * acc + code` |
| Chart.Hash | frontend/src/lib/utils/chartUtils.ts:20-22 | the reduce over the characters; each character moves the hash by less than 2^31 plus the largest character code |
| Chart.HashExact | frontend/src/lib/utils/chartUtils.ts:20-22 | for names shorter than 2^21 characters the hash stays below 2^53, so a double holds it exactly |
| Chart.ColorForActivity | frontend/src/lib/utils/chartUtils.ts:18-24 | the colour is always one of the palette's |
| Chart.EmptyNameColor | frontend/src/lib/utils/chartUtils.ts:18-24 | the empty name hashes to 0 and gets the first colour |
| Chart.OneCharColor | frontend/src/lib/utils/chartUtils.ts:18-24 | a one-character name picks the colour at the last decimal digit of its code |
| Chart.JsRem | frontend/src/lib/utils/chartUtils.ts:29 | JavaScript `%`: the remainder has the sign of the dividend, is smaller than the divisor in magnitude and differs from the dividend by a multiple of the divisor |
| Chart.FormatDurationTooltip | frontend/src/lib/utils/chartUtils.ts:27-32 | the series name is passed through unchanged, and for a non-negative value the text reads back as the value |
| Chart.DurationSplit | frontend/src/lib/utils/chartUtils.ts:28-29 | for a non-negative value, hours are non-negative, minutes are below 60, and together they give back the value |
| Chart.DurationText | frontend/src/lib/utils/chartUtils.ts:28-31 | for a non-negative value, the tooltip text `"<h>h <m>m"` or `"<m>m"` reads back as the value |
| Chart.FormatDurationYAxisTick | frontend/src/lib/utils/chartUtils.ts:35-38 | the tick reads back as a number of minutes no larger than the value; from 60 up it is a whole number of hours less than an hour below the value, and under 60 it is the value itself |
| Chart.TickMatchesTooltip | frontend/src/lib/utils/chartUtils.ts:27-38 | the tick text is a prefix of the tooltip text, and under an hour the two are equal |
| DateRanges.RangeBounds | frontend/src/lib/utils/dateUtils.ts:4-40 | start <= end; the end is the last millisecond of today, except for `yesterday`, which runs from the previous local midnight to the millisecond before today's |
| DateRanges.RangeLengths | frontend/src/lib/utils/dateUtils.ts:12-27 | `today` covers the local day of now; `yesterday` the day before; `last7days` starts 7 local days back and `last30days` 30 days back, both ending today |
| DateRanges.RangeStarts | frontend/src/lib/utils/dateUtils.ts:6-27 | `today` starts exactly at local midnight, `last7days` and `last30days` exactly 7 and 30 days of milliseconds before it |
| DateRanges.ThisMonthStart | frontend/src/lib/utils/dateUtils.ts:29-31 | `thisMonth` starts at local midnight on the 1st of the current local month |
| DateRanges.ThisYearStart | frontend/src/lib/utils/dateUtils.ts:33-35 | `thisYear` starts at local midnight on January 1 of the current local year |
| DateRanges.UnknownIsLast7Days | frontend/src/lib/utils/dateUtils.ts:37-39 | any name the switch does not list gives the `last7days` bounds |
| DateRanges.DateRangeToStartEnd | frontend/src/lib/utils/dateUtils.ts:42-45 | both outputs are valid `YYYY-MM-DD` dates, and start is no later than end |
| DateRanges.TodayStartsEarlierEastOfUtc | frontend/src/lib/utils/dateUtils.ts:42-45 | east of UTC, `today` as written starts on the date before the local date |
| DateRanges.TodayEndsLaterWestOfUtc | frontend/src/lib/utils/dateUtils.ts:42-45 | west of UTC, `today` as written ends on the date after the local date |
| DateRanges.LocalDateRangeToStartEnd | frontend/src/lib/utils/dateUtils.ts:42-45 | corrected formatting with local dates: valid dates, start no later than end, and the end is the local date of now except for `yesterday` |
| DateRanges.LocalTodayAndYesterday | frontend/src/lib/utils/dateUtils.ts:12-19 | with local dates, `today` is the local date on both sides and `yesterday` is the date before, for every offset |
| Errors.GetErrorMessage | frontend/src/lib/utils.ts:10-50 | a truthy value that is not an object gives undefined |
| Errors.FalsyIsUnknown | frontend/src/lib/utils.ts:11 | any falsy error gives "An unknown error occurred" |
| Errors.BodyMessageFirst | frontend/src/lib/utils.ts:18-21 | the body's own `message` wins over `error` and over every status |
| Errors.BodyErrorSecond | frontend/src/lib/utils.ts:22-24 | without a `message`, the body's `error` is returned |
| Errors.KnownStatuses | frontend/src/lib/utils.ts:28-39 | without a body message, 401, 403, 404 and 500 map to their fixed texts |
| Errors.OtherStatuses | frontend/src/lib/utils.ts:41 | any other status gives a text starting `Error <status>: ` followed by more |
| Errors.FetchErrorsGetText | frontend/src/lib/utils.ts:14-42 | an error with a status always yields a string, unless the body's own `message` or `error` is not a string |
| Errors.OtherErrors | frontend/src/lib/utils.ts:45-50 | another truthy error gives its string `message`, and otherwise undefined |

## Left out

- The database. The ORM becomes an in-memory sequence, and a filter or stable sort stands in for each query. For rows that tie on the sort key, the database does not promise an order, and the model fixes one.
- Request DTO validation. `timestamp` and the date strings arrive already parsed into milliseconds, and date-string parsing is not modelled. A create request has `duration >= 1`, as its validator demands.
- The database-generated id. It is a counter rendered as `act-<n>`. `createdAt` and `updatedAt` are not modelled.
- Case-insensitive `contains`. Case folding covers ASCII letters only.
- Daylight-saving time. Local time is UTC plus a fixed offset for all instants.
- JavaScript object key order in stacked rows. The model keeps a row's cells as a map, so it does not capture that integer-like titles come first. The first-met order of titles is kept separately, as `Group.titles`.
- `in` on the prototype chain. `'message' in error` sees only own properties.
- Insights.GroupByBucket: titles are plain map keys. In the program, `timeGroup[title]` and `entry[title]` at insights.service.ts:123 and :140 read and write through the object prototype. A title such as `toString` or `constructor` starts from an inherited function rather than from 0. A title `__proto__` is not stored at all. For such titles, `StackedConserves` does not hold in the program.
- Activities.ActivityStore.Update and Activities.ActivityStore.Remove: each runs as one atomic step. In the program, the ownership check and the write are two separate database calls, and another request may change the row in between.
- Activities.FindAll: `limit` and `offset` are natural numbers. The controller passes `parseInt` results through unchecked, so negative numbers and NaN reach the ORM. The ORM reads backwards for a negative `take` and rejects a negative `skip`; the model does not cover either.
- TimeKeys.YearStart and DateRanges.RangeBounds: `new Date(y, m, d)` maps years 0 to 99 to 1900 to 1999. The model takes the year as given, so local years 0 to 99 are not modelled as the program computes them.
- The `getTimeKey` fallback at insights.service.ts:171. The interval type makes it unreachable, so it is not modelled.
- An `interval` outside the enumeration. Such a string is not representable here.
- `_sum.duration || 0`. A group exists only when it has at least one row, so the sum is never null.
- TimeKeys.WeekNumberAsWritten: the floating-point division by 86400000 is modelled as exact rational arithmetic on whole milliseconds. Rounding of doubles is not captured.
- Non-integer numbers and NaN. Durations, minutes and status codes are integers.
- `JSON.stringify`. Its output format is a parameter of the error helper.
- Character codes. They are Unicode code points rather than UTF-16 code units, so names containing characters outside the Basic Multilingual Plane hash differently.
- `cn` in utils.ts. It only calls class-name libraries.

## Findings

| source | as written | input that shows it | evidently intended | confidence | as-written member | corrected member |
|---|---|---|---|---|---|---|
| backend/src/insights/insights.service.ts:174-178 | the week number is a ceiling of fractional days; any instant after midnight on a Saturday rounds up into the following week | 2025-01-04 12:00 UTC (t = 1735992000000, offset 0), a Saturday: week 2 as written | Sunday-to-Saturday weeks with week 1 holding January 1; that Saturday is week 1 | high; not executed | TimeKeys.SaturdayCountsInNextWeek | TimeKeys.IntendedWeekKeySameWeek |
| frontend/src/lib/utils/dateUtils.ts:42-45 | local-time bounds are written with `toISOString`, which gives their UTC date | range `today` in UTC+2: start is the local midnight, written as the previous date | the local dates the bounds were built from | high; not executed | DateRanges.TodayStartsEarlierEastOfUtc | DateRanges.LocalTodayAndYesterday |
