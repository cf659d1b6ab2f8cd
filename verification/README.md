# Schedule logger core in Dafny

A Dafny model of the core of `ScheduleLogger`, a single-page personal schedule.
The scheduler keeps three things in memory:

- a list of activities, each with an id, title, category, start date-time, optional duration and notes;
- a list of categories, each with an id, name and colour;
- a per-year table of Hong Kong public holidays.

It expands recurring activities into series. It deletes activities, series and categories, the last cascading to that category's activities. It adds categories under a duplicate-name check. It filters by category. It projects everything onto a 42-day month grid. Small helpers format durations and lighten or darken `#rrggbb` colours.

The model is organised by concern:

- `Store` holds the class `Scheduler`. Its fields are the activity list, the category list, the holiday table and the category filter. Its methods change them in place as the source's methods do.
- `Schedule` has the records and the order-preserving selections: the category filter and the three deletions.
- `Categories` has the new-category decision.
- `Recurrence` has series expansion, date stepping and the preview.
- `Holidays` has the fallback list and the lookup.
- `Calendar` has the grid, the per-day activity list (a stable insertion sort by time) and the cells.
- `Civil` has proleptic-Gregorian dates, with JavaScript `Date` rollover for `setDate`/`setMonth` and the `YYYY-MM-DD` date string.
- `Decimal` renders integers as `String(n)` does.
- `Text` covers `trim`, ASCII `toLowerCase` and the id slug.
- `Durations` has `formatDuration` and its reading back.
- `Colors` has the colour helpers.
- `Seqs` and `Arith` are generic sequence and arithmetic helpers.

Dates are civil values `Date(year, month, day)` with 1-based months, and date-times add hour and minute. Day numbers count days from 0001-01-01. The JavaScript rollover is split in two. `Civil.Normalize` rolls an out-of-range day of the month into a real date, so day 32 of January is 1 February. `Civil.AddMonths` carries an out-of-range month into the year, so month 14 is February of the next year, and then rolls the day with `Normalize`.

Some of the source's inputs come from outside the program, and the model takes each as a parameter instead:

- `confirm(...)` answers: `confirmed: bool`.
- `Date.now()`, read once in each iteration of the series loop: the sequence `clock` of readings.
- the date the grid marks as today: `today`.
- the form's fields: `Draft`, `isRecurring` and an optional date-time.
- `Math.round(255 * amount)`: an integer `amt`.

## Model

| member | source | states |
|---|---|---|
| Store.Scheduler.constructor | script.js:2-7 | Activities, categories and holidays start from the stored values, or from an empty list, the five default categories and an empty table when nothing is stored; the filter starts as 'all'. |
| Categories.DefaultCategories | script.js:34-42 | The default category list has five entries. |
| Categories.DefaultsDistinct | script.js:34-42 | The default categories have pairwise distinct names ignoring case, and pairwise distinct ids. |
| Store.Scheduler.FilteredActivities | script.js:598-603 | The result has no more activities than the store, each from the store and of the filter's category; under 'all' it is the whole list. |
| Schedule.Filtered | script.js:598-603 | The result is no longer than the list and holds only stored activities of the filter's category, or any under 'all'; FilteredSelects states exactly which. |
| Schedule.FilteredSelects | script.js:598-603 | The filter 'all' returns the list itself; any other filter keeps each activity of that category exactly as often as it is stored and drops all others. |
| Seqs.Filter | script.js:602 | The filter result is no longer than its input, holds only input elements that pass, and holds every input element that passes. |
| Seqs.FilterConcat | script.js:602 | Filtering a concatenation filters each part and concatenates the results, so survivors keep their relative order. |
| Seqs.FilterMultiset | script.js:602 | Each element survives a filter as often as it occurs if it passes, and not at all otherwise. |
| Store.Scheduler.CreateRecurringActivities | script.js:183-214 | The activity list becomes the old list followed by exactly the series, in index order. Every activity references an existing category afterwards when that held before and the draft's category exists. |
| Recurrence.Series | script.js:186-212 | A series holds one activity per loop iteration: count of them, or none when count is below one. |
| Recurrence.SeriesIndexesDense | script.js:201-210 | The `recurringIndex` values of a series are exactly 1, 2, ..., count, in order. |
| Recurrence.SeriesMembersShare | script.js:186-210 | Every member carries the series id, the total count and the frequency; it also keeps the draft's title, category, duration, notes, creation stamp and time of day. Member i's id is the clock reading of iteration i plus i, and its date-time is the start stepped i times (daily, weekly or monthly), for every member and not only the previewed ones. |
| Recurrence.SeriesIdsIncrease | script.js:186-203 | When the clock readings never go back, ids strictly increase along the series, so no two members share an id. |
| Recurrence.DeleteUndoesCreate | script.js:183-214 | Deleting the series just created gives the same list as deleting it from the old list. When no old activity belonged to that series, it restores the old list exactly. |
| Recurrence.SeriesKeepsReferences | script.js:201-212 | Appending a series whose category exists keeps every activity pointing at an existing category. |
| Recurrence.StepDate | script.js:189-199 | A daily, weekly or monthly step yields a real date; any other frequency keeps the start date. DailyAndWeeklySteps and MonthlyStep state the distance. |
| Recurrence.Step | script.js:187-199 | Specified by SeriesMembersShare: every member i of a series has as date-time the start stepped i times, at the start's time of day; PreviewMatchesSeries shows the same dates. DailyAndWeeklySteps and MonthlyStep state how far each step goes. |
| Recurrence.Instance | script.js:201-210 | Specified by SeriesMembersShare and SeriesIndexesDense: the draft's fields with id, date-time stepped i times, series id, index i + 1, total and frequency. |
| Recurrence.DailyAndWeeklySteps | script.js:189-195 | Daily instance i is i days after the start; weekly instance i is 7*i days after it, on the same weekday. |
| Recurrence.DailyConsecutive | script.js:190-192 | Consecutive daily instances fall on consecutive days. |
| Recurrence.MonthlyStep | script.js:196-198 | Monthly instance i lies i months after the start month, on the start's day when that month has it. Otherwise the surplus days spill into the following month. |
| Recurrence.MonthlyFromJanuary31 | script.js:196-198 | A monthly series from 31 January 2025 continues on 3 March 2025. |
| Recurrence.DailyFromJanuary31 | script.js:190-192 | A daily series from 31 January 2025 continues on 1 February 2025. |
| Recurrence.RecurringPreview | script.js:233-282 | Unchecked gives an empty preview, and no date gives a request for one. Otherwise the preview shows the count and min(count, 5) dates, date i being stepped as the series steps instance i, plus "count - 5 more" exactly when count exceeds 5. |
| Recurrence.PreviewMatchesSeries | script.js:254-270 | Each previewed date is the date-time of the series activity with the same index. |
| Store.Scheduler.DeleteActivity | script.js:284-290 | When confirmed, the list loses exactly the activities with that id, keeping the rest in order. When declined, nothing changes. References to existing categories are kept. |
| Schedule.WithoutActivity | script.js:286 | What remains are stored activities without that id; DeleteActivityExactly states that every other stays. |
| Schedule.DeleteActivityExactly | script.js:285-286 | Every activity with that id goes; every other stays as often as it was stored. |
| Store.Scheduler.DeleteRecurringSeries | script.js:292-301 | Reports the member count and the title the confirmation names. When confirmed, exactly the series goes, shrinking the list by that count; when declined, nothing changes. |
| Schedule.WithoutSeries | script.js:297 | What remains are stored activities outside that series; DeleteSeriesExactly states that every other stays. |
| Schedule.SeriesMembers | script.js:293 | The members are stored activities of that series; SeriesSplit states that they and the kept ones make up the list. |
| Schedule.SeriesTitle | script.js:294 | The confirmation names the title of the first stored member of the series when that title is non-empty, and "this series" when it is empty or the series has no member. |
| Schedule.DeleteSeriesExactly | script.js:296-297 | Every member of the series goes; every other activity, including those outside any series, stays as often as it was stored. |
| Schedule.SeriesSplit | script.js:293-297 | The members counted for the confirmation and the activities kept by the deletion add up to the whole list. |
| Store.Scheduler.AddCategory | script.js:398-432 | The outcome is the new-category decision on the stored list. Only an accepted name appends exactly one category, and it keeps names distinct ignoring case and references to existing categories. |
| Categories.NewCategory | script.js:402-424 | A name that trims to nothing is refused. So is one matching an existing name ignoring case. Otherwise the new category has the trimmed name, the given colour and the slug of the name as id. |
| Categories.NameTaken | script.js:410-413 | True exactly when some category's lower-cased name equals the lower-cased name. |
| Categories.AddKeepsNamesDistinct | script.js:410-426 | Appending an accepted category keeps every two names distinct ignoring case. |
| Categories.AddKeepsIdsDistinct | script.js:416-426 | Appending an accepted category keeps ids distinct exactly when no category already has its slug; the name check alone does not ensure that. |
| Categories.DuplicateIgnoresCaseAndBlanks | script.js:402-413 | "  study " is refused as a duplicate next to the default "Study". |
| Text.Trim | script.js:402-408 | The trimmed text is a slice of the input that starts and ends with non-whitespace (or is empty), and everything cut off on both sides is whitespace. It is empty exactly when the input is whitespace only, which is when the name is refused. |
| Text.TrimIdempotent | script.js:402 | Trimming twice is trimming once. |
| Text.LowerChar | script.js:410 | An upper-case ASCII letter becomes the lower-case letter 32 code points above it; any other character stays; no upper-case letter comes out. |
| Text.ToLower | script.js:410 | Lower-casing keeps the length, leaves no upper-case ASCII letter, turns each upper-case letter into its lower-case letter and leaves every other character unchanged. |
| Text.ToLowerIdempotent | script.js:410 | Lower-casing twice is lower-casing once. |
| Text.Slug | script.js:416 | The id is the lower-cased name with every character outside `a-z0-9` removed and the rest kept in order; so it is no longer than the name and holds only `a-z` and `0-9`. |
| Text.SlugKeepsExactly | script.js:416 | Each `a-z0-9` character occurs in the id as often as in the lower-cased name; no other character occurs. |
| Text.SlugConcat | script.js:416 | The id of a concatenation is the concatenation of the ids, so characters keep their order across the parts. |
| Text.SlugOfFitnessAndYoga | script.js:36 | The default name "Fitness & Yoga" slugs to "fitnessyoga": the blanks and the ampersand go, the letters stay in order. |
| Text.SlugIdempotent | script.js:416 | An id is its own slug. |
| Text.SlugIgnoresCase | script.js:416 | Names that agree ignoring case get the same id. |
| Text.SlugOfPlainName | script.js:416 | A name of lower-case letters and digits only is its own id. |
| Store.Scheduler.DeleteCategory | script.js:434-456 | Reports how many activities use the category. If some do and the deletion is declined, nothing changes. Otherwise those activities and the category go, and a filter on that category becomes 'all'. Every remaining activity still references an existing category, and names that were distinct ignoring case stay so. |
| Categories.DeleteKeepsNamesDistinct | script.js:446 | Removing a category entry keeps the remaining names pairwise distinct ignoring case, so the rule `addCategory` enforces survives deletions too. |
| Schedule.WithoutCategory | script.js:443 | What remains are stored activities of other categories; CascadeExactly states that every other stays. |
| Schedule.CountInCategory | script.js:436 | The count is at most the list's length; CountSplit states that it and the rest add up to the list. |
| Schedule.WithoutCategoryEntry | script.js:446 | What remains are stored categories with other ids; CascadeKeepsReferences relies on it. |
| Schedule.CascadeExactly | script.js:436-444 | The cascade removes every activity of the category and keeps every other as often as it was stored; the list shrinks by exactly the reported count. |
| Schedule.CascadeOfUnusedCategory | script.js:437-445 | With no activity in the category, the cascade changes nothing. |
| Schedule.CascadeKeepsReferences | script.js:444-446 | Removing a category with its activities leaves every remaining activity pointing at a remaining category. |
| Schedule.CountSplit | script.js:437-444 | The activities in the category and those outside it add up to the whole list. |
| Colors.LightenChannels | script.js:552-561 | Lightening adds amt to each channel, clamps it to [0, 255], and yields a `#` plus six hex digits colour. |
| Colors.DarkenChannels | script.js:563-572 | Darkening subtracts amt from each channel, clamps it to [0, 255], and yields a `#` plus six hex digits colour. |
| Colors.Lighten | script.js:552-561 | Specified by LightenChannels: each channel gains amt, clamped to [0, 255], and the result is a `#rrggbb` colour. |
| Colors.Darken | script.js:563-572 | Specified by DarkenChannels: each channel loses amt, clamped to [0, 255], and the result is a `#rrggbb` colour. |
| Colors.LightenClamp | script.js:558-560 | The lightening clamp is in [0, 255], the identity inside that range, 0 below it and 255 above it. |
| Colors.DarkenClamp | script.js:569-571 | The darkening clamp is in [0, 255], the identity inside that range, 0 below it and 255 above it. |
| Colors.RenderRoundTrip | script.js:558-560 | Rendering three bytes gives a colour whose parsed channels are those bytes. |
| Colors.ToHexLeadingOne | script.js:558-560 | A number `0x1000000 + v` prints in hex as "1" followed by the six zero-padded digits of v, so `.slice(1)` leaves those six. |
| Colors.ParseHexFixed | script.js:553 | Parsing the zero-padded hex digits of v gives v back. |
| Colors.ChannelsAreBytes | script.js:553-557 | The three channels read from a colour are bytes that recombine into its 24-bit value. |
| Durations.FormatDuration | script.js:587-596 | Only zero shows as nothing, and every other count ends in its `h` or `m` unit; the exact text is FormatDurationShape's and it reads back by FormatDurationRoundTrip. |
| Durations.FormatDurationShape | script.js:587-596 | For non-negative minutes, zero shows as nothing and 1..59 as "{m}m". From 60 on it shows "{h}h" when the minutes part is 0 and "{h}h {m}m" otherwise, with h the whole hours and m the rest. |
| Durations.NegativeDurationShowsRemainder | script.js:589-595 | A negative count has no positive whole hours and shows the truncated remainder, e.g. -90 as "-30m". |
| Durations.JsRemainder | script.js:590 | JavaScript's `%` agrees with the mathematical remainder for a non-negative dividend; in general it lies strictly between -b and b, is never positive for a negative dividend, and differs from the dividend by a multiple of b, which fixes it as the truncated remainder. |
| Durations.FormatDurationRoundTrip | script.js:587-596 | Reading a displayed duration back gives the minutes shown, for every count above -60. |
| Decimal.IntRoundTrip | script.js:781-783 | Parsing `String(n)` gives n back. |
| Decimal.IntToStringInjective | script.js:780-783 | Distinct integers render as distinct strings. |
| Decimal.TwoDigits | script.js:781-782 | `String(n).padStart(2, '0')` of a number below 100 is two digits that read back as n. |
| Civil.DateString | script.js:779-784 | Specified by DateStringInjective: real dates have equal strings exactly when they are equal; HardcodedDateText shows the zero padding. |
| Civil.DateStringInjective | script.js:779-784 | Two real dates have the same `YYYY-MM-DD` string exactly when they are the same date. |
| Civil.Normalize | script.js:191 | Rolling a day-of-month into range yields a real date, and leaves a day already in range alone. |
| Civil.NormalizeDayNumber | script.js:191 | Rollover keeps the day number: the date returned is the day the out-of-range day-of-month denotes. |
| Civil.AddDays | script.js:190-195 | The date reached is a real date; AddDaysDayNumber states that it lies exactly n days on. |
| Civil.AddMonths | script.js:197 | The date reached is a real date; MonthlyStep states which one. |
| Civil.AddDaysDayNumber | script.js:718 | `setDate(getDate() + n)` moves the day number by exactly n. |
| Civil.AddDaysAdd | script.js:718 | Moving by n days then by k days is moving by n + k days. |
| Civil.AddDaysWeekday | script.js:710 | The weekday advances by one per day, cyclically. |
| Civil.NormalizeOverflow | script.js:197 | A day past the end of the month by up to 28 lands in the next month, on the surplus day. |
| Civil.NormalizeUnderflow | script.js:710 | A day-of-month from -27 to 0 lands in the previous month, counted back from its last day. |
| Civil.DayNumberMonotone | script.js:761 | Day numbers order real dates as the calendar does. |
| Civil.DayNumberInjective | script.js:718 | Two real dates with the same day number are equal. |
| Civil.DateTimeBeforeIsInstantOrder | script.js:761 | Comparing date-times field by field agrees with comparing the minutes they denote, as the comparator's subtraction does. |
| Calendar.Insert | script.js:761 | Inserting keeps the elements (the multiset grows by the new one) and keeps a time-sorted list sorted. |
| Calendar.SortByTime | script.js:761 | The sort yields a time-ordered permutation of its input. |
| Calendar.SortStable | script.js:761 | The sort is stable: activities at the same instant keep their stored order. |
| Calendar.ActivitiesForDate | script.js:754-762 | Specified by ActivitiesForDateSelects: the filtered activities of the day, each as often as stored, sorted by time. |
| Calendar.ActivitiesForDateSelects | script.js:754-762 | A day's list is sorted by time and holds each stored activity that passes the category filter and whose date string is the day's, as often as it is stored, and nothing else. |
| Calendar.OnDateIsSameDay | script.js:758-760 | For real dates, matching date strings is starting on that day. |
| Calendar.GridStart | script.js:706-709 | The start is a real date; GridStartsOnSunday states it is the Sunday on or before the first. |
| Calendar.GridDate | script.js:715-717 | Each cell date is a real date; GridConsecutive states that cell i is i days after the start. |
| Calendar.GridStartsOnSunday | script.js:707-710 | The grid starts on a Sunday, the first's weekday number of days before the first. |
| Calendar.GridConsecutive | script.js:716-718 | Cell i is i days after the start, the day after cell i is cell i + 1, and cell i falls on weekday i mod 7. |
| Calendar.GridCoversMonth | script.js:707-718 | Day k of the viewed month is cell w + k - 1, where w is the first's weekday, and that cell is below 42. |
| Calendar.GridMonthIsViewedMonth | script.js:720 | Comparing only the month is enough: no grid cell has the viewed month in another year. |
| Calendar.MakeCell | script.js:719-745 | Specified by CellTruncation and CellToday: the listed activities, the badge and the today mark. |
| Calendar.CellAt | script.js:715-745 | Specified by GridPrefixGrows and RenderCalendar: cell i is built from the day start + i, its activities and its holiday. |
| Calendar.CellTruncation | script.js:738-745 | A cell lists the first min(n, limit) of its n activities, limit being 2 beside a holiday and 3 otherwise. It shows a `+(n - limit)` badge exactly when n exceeds limit, so listed and counted add up to n. |
| Calendar.CellToday | script.js:721 | For real dates a cell is marked today exactly when its date is today's. |
| Calendar.GridCells | script.js:707-720 | A full grid of cells starts on a real Sunday at most six days before the first and runs through consecutive real dates. A cell is in the month exactly when its date is in the viewed year and month. |
| Store.Scheduler.RenderCalendar | script.js:707-745 | The loop builds exactly 42 cells, cell i being the cell for start + i days. The cells are consecutive real dates from a Sunday at most six days before the first, marked in-month exactly for the viewed year and month. |
| Holidays.HardcodedHolidays | script.js:831-849 | The fallback list has twelve entries. |
| Holidays.HardcodedDateText | script.js:833-845 | The template literals write zero-padded dates: New Year's Day is `{year}-01-01`, Christmas `{year}-12-25`. |
| Holidays.FixedDaysValid | script.js:833-846 | Every fallback day is a real date in every year. |
| Holidays.FixedDaysDistinct | script.js:833-846 | No month and day occurs twice in the fallback list. |
| Holidays.FirstWithDate | script.js:857 | `find` returns the first entry with the date string, or nothing when no entry has it. |
| Holidays.HolidayFor | script.js:851-858 | No table for the year gives no holiday. Otherwise there is a holiday exactly when some entry of that year has the date's string, and the one returned is the first such entry, as `find` returns. |
| Holidays.FallbackLookup | script.js:831-858 | With the fallback list stored for a year, a real date has a holiday exactly when its month and day are one of the twelve entries'; the holiday returned is that entry's. |

## Left out

- DOM rendering, event wiring, modals and the HTML strings of the preview and the grid are not modelled. A grid cell is the data the HTML shows.
- Persistence to `localStorage` is left out; stored values are constructor parameters.
- The holiday service (`fetch`), cloud sync and timers are left out. The holiday table is a field that a caller may fill with the fallback list.
- Converting each recurring instance through `toISOString().slice(0, 16)` is left out. It shifts the date-time by the host's UTC offset, which depends on the runtime's time zone, so instances are modelled as civil date-times.
- Daylight-saving transitions are left out for the same reason.
- Locale formatting (`formatDateTime`, `formatTime`) is left out.
- `Date.now()`, `confirm(...)` and the current date are runtime inputs; they are method parameters.
- Recurrence.SeriesIdsIncrease assumes the clock readings never go back. A clock set back during the loop could give two members the same id, and ids are not checked against those already stored.
- Store.Scheduler.FilteredActivities: under 'all' the source returns the stored array itself, and the activity list view sorts that array in place, newest first (script.js:600, 632). That reorders the store. The model returns a value and never reorders the store. Its order claims therefore hold for whatever order the list has when an operation runs: the stored order kept by the deletions, the tie order of a day's activities, and the first member whose title SeriesTitle names.
- JavaScript `Date` values end at ±8.64e15 ms around 1970. Past that, `toISOString` throws in the middle of the series loop, after some instances were already pushed. Dates here are unbounded, so that partial series is not modelled.
- `Math.round(255 * amount)` is floating point; the colour helpers take the rounded integer.
- Colors.Lighten and Colors.Darken accept only `#` followed by six hex digits, as the colour input provides. Other strings, where `parseInt` would read a prefix or give NaN, are not modelled.
- Text.ToLower maps only the ASCII letters; the Unicode case mapping of `toLowerCase` is not modelled.
- Recurrence.RecurringPreview takes the count as an integer. The `parseInt(...) || 1` reading of the form field is not modelled.
- Durations.FormatDurationRoundTrip does not cover counts of -60 or below. These show only the truncated remainder (see NegativeDurationShowsRemainder), so they cannot be read back.
- A date-time field that parses to an invalid `Date` is not modelled; date-times are civil values.
- `addActivity` for a single activity, `currentDate` navigation and `getMonthlyQuote` are outside this model.
- The fallback holidays are a table of month and day, written into their date strings through the same padding as `getDateString`. The fixed dates in the source are two-digit literals, which this reproduces.
