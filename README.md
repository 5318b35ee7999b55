# Outdoor construction scheduler: calendar, report and chart logic in Dafny

The scheduler predicts, for each day of a date range, the Seattle weather
(drizzle, rain, snow, sun) and whether the day is a working day. The backend
(`app.py`) turns the predictions into one calendar event per date. The browser
(`static/scripts.js`) lays the events out as month grids, four months per row,
and renders the two classification reports as table rows. A dashboard
(`static/visuals.js`) parses the historical weather CSV and computes three
aggregates: monthly average temperatures, the weather distribution on working
and non-working days, and the share of working days.

This project models that logic and proves its properties. The machine-learning
models are out of scope: their outputs (weather labels and day-type labels) are
inputs here.

Modules, one per concern:

- `Wrappers`: the `Option` type. `None` stands for JavaScript's `undefined` or
  `NaN` where the source produces those.
- `Text`: string operations with their JavaScript meaning. This covers
  `split` on one character, `split(/\s+/)` after `trim()`, `join`, `trim()`
  with the ECMAScript whitespace set, and `toLowerCase()`.
- `Civil`: proleptic Gregorian dates.
  - `CivilDate` is a valid `(year, month 1..12, day)`. It stands for a JavaScript
    `Date` that is not invalid. Month indices 0..11 are `month - 1`.
  - `NextDay` is `setDate(getDate() + 1)`.
  - `DaysInMonth` is "day 0 of the following month".
  - `FormatIsoDate`/`ParseIsoDate` are the `YYYY-MM-DD` text form written by
    `strftime('%Y-%m-%d')` and read back by `new Date(...)`.
- `Calendar` (`static/scripts.js:240-325`):
  - the month walk `getMonthsBetween`;
  - the month grid `createMonthDiv`, with its event lookup and the "today" flag;
  - the layout of `generateCalendar`: one month alone, or rows of four.
- `Report` (`static/scripts.js:83-163`): the table rows recovered from the
  weather report (first eleven lines, with a summary row) and from the day-type
  report.
- `Aggregator` (`static/visuals.js:24-89`): `parseCSV`,
  `calculateMonthlyAverages`, `calculateWeatherDistribution` and
  `calculateDayTypePercentages`. The two loops become methods over a local
  array or tallies, proved against specification functions.
- `Forecast` (`app.py:80-130`):
  - the inclusive daily `date_range`;
  - the events loop and its class-name rule;
  - the two day-type counts;
  - lemmas that connect the backend's events to the browser's cells.

Three behaviours of the code are easy to miss, and the model keeps them as
written:

- **`getMonthsBetween` skips the month after a start whose day number that
  month does not have** (January 29 to 31 before a 28-day February, March 31
  before April). It steps with `setMonth(getMonth() + 1)` before `setDate(1)`. From a day
  the next month does not have (January 31), JavaScript overflows into the
  month after (March 3), so February is never listed, although the function's
  own comment (`static/scripts.js:273`) speaks of all months between the two
  dates. `MonthStep` reproduces the overflow. `MonthsSkipShortMonth`,
  `MonthsSkipFebruary` and `CalendarSkipsFebruary` state the consequence.
  `MonthsCoverAll` states the coverage that does hold when the start day
  exists in the next month.
- **An unknown weather key raises no tally but counts in the total.**
  `workingDays[item.weather]++` on a key outside the four adds a key that no
  percentage reads, while `totalWorkingDays++` still counts the record, so the
  group's four percentages then add up to less than 100. `Tallied`,
  `TalliesAgainstTotal` and `GroupDistributionSum` model that.
- **Dates are shifted by one day.** The calendar shifts the range ends and every
  event date by one day (`setDate(getDate() + 1)`) before comparing. The shift is
  modelled exactly, and `EventLandsOnShiftedDay` states that the event for date
  `d` tags the cell of `NextDay(d)`.

## Model

| member | source | states |
|---|---|---|
| `Text.Split` | static/visuals.js:25 | `split` on one character never yields zero parts, and no part contains the separator |
| `Text.JoinSplit` | static/scripts.js:83 | joining the parts of a split with the separator gives back the original text |
| `Text.SplitJoin` | static/visuals.js:27 | splitting a join of separator-free parts (at least one) gives back those parts |
| `Text.SplitByJoin` | static/scripts.js:97 | splitting by a separator class inverts joining by one member of that class |
| `Text.Trim` | static/visuals.js:55 | `trim()` keeps a piece of the text that occurs in it with only whitespace before and after it, and whose first and last characters are not whitespace |
| `Text.ToLower` | static/visuals.js:55 | `toLowerCase()` keeps the length of the text |
| `Text.ToLowerChars` | static/visuals.js:55 | `toLowerCase()` maps each character on its own and leaves no ASCII capital letter |
| `Text.LowerKeepsSpace` | static/visuals.js:55 | lower-casing neither creates nor removes whitespace |
| `Text.TrimPadded` | static/scripts.js:97 | `trim()` removes exactly the whitespace padding around text that neither starts nor ends with whitespace |
| `Civil.DaysInMonth` | static/scripts.js:290 | "day 0 of the following month" is a month length between 28 and 31 (29 in a leap February) |
| `Civil.KeyOrder` | static/scripts.js:278 | comparing two dates is comparing their integer keys, both for `<` and for equality |
| `Civil.MonthIndexOrder` | static/scripts.js:278 | an earlier or equal date has an earlier or equal month index, and an earlier month index means an earlier date |
| `Civil.NextDay` | static/scripts.js:244 | `setDate(getDate() + 1)` moves to a later date |
| `Civil.NextMonthStart` | static/scripts.js:280-281 | moving to day 1 of the next month lands on day 1 of month index plus one, December into January of the next year |
| `Civil.NextDayIsSuccessor` | static/scripts.js:305 | `setDate(getDate() + 1)` gives a later date with no valid date strictly between |
| `Civil.NextDayInjective` | static/scripts.js:244-247 | two dates with the same next day are equal |
| `Civil.ParseIsoDate` | static/scripts.js:303 | the date reader accepts only `YYYY-MM-DD` text, and every date it reads has a four-digit year |
| `Civil.FormatIsoDate` | app.py:119 | `strftime('%Y-%m-%d')` gives ten characters, dashes at positions 4 and 7, digits elsewhere |
| `Civil.ParseFormat` | app.py:119 | reading back a formatted date gives that date |
| `Civil.Number4` | static/scripts.js:303 | four digits read as a number place by place |
| `Civil.Places4` | app.py:119 | a year below 10000 is the sum of its four decimal places |
| `Civil.Pad4Number` | app.py:119 | reading back a four-digit year gives the year |
| `Civil.NumberPad4` | static/scripts.js:303 | four digits read as a number below 10000 whose four-digit form is those digits |
| `Civil.FormatParse` | static/scripts.js:303 | every text the date reader accepts is the formatted form of the date it reads |
| `Calendar.MonthStep` | static/scripts.js:280-281 | one step of the walk lands on day 1 of the next month, or of the month after that exactly when the day number does not exist in the next month |
| `Calendar.MonthsBetween` | static/scripts.js:274-285 | the listed months start at the start date, each is the step of the previous one, none is after the end date, the step after the last one is, and the list is empty exactly when the start is after the end |
| `Calendar.GetMonthsBetween` | static/scripts.js:274-285 | the loop returns exactly `MonthsBetween` of its arguments |
| `Calendar.MonthsIncreasing` | static/scripts.js:278-281 | the listed months are strictly increasing and all but the first are day 1 |
| `Calendar.MonthsFromDayOne` | static/scripts.js:278-281 | from day 1, one entry is listed per month index from the start's to the end's, in order, with no gaps |
| `Calendar.MonthsCoverAll` | static/scripts.js:278-281 | when the start day exists in the next month, every month from the start's to the end's is listed once, in order |
| `Calendar.MonthsSkipShortMonth` | static/scripts.js:280-281 | when the start day does not exist in the next month, that month is never listed |
| `Calendar.MonthsSameMonth` | static/scripts.js:278-282 | start and end in the same month list that one month |
| `Calendar.MonthStepDecember` | static/scripts.js:280-281 | a December step moves to January 1 of the next year |
| `Calendar.MonthsAcrossYearEnd` | static/scripts.js:274-285 | 2023-12-15 to 2024-01-15 lists December 2023 and January 2024 |
| `Calendar.MonthsSkipFebruary` | static/scripts.js:274-285 | 2023-01-31 to 2023-03-06 lists January and March 2023 only |
| `Calendar.EventMatches` | static/scripts.js:302-309 | an event matches only a valid calendar day, and only when its start reads as a date |
| `Calendar.FindEvent` | static/scripts.js:302-309 | `events.find` returns the first event whose date, shifted by one day, is the cell's year, month and day, or none when no event matches |
| `Calendar.MatchesShiftedDay` | static/scripts.js:302-309 | an event whose start reads as `d` matches exactly the cell of the day after `d` |
| `Calendar.CellClass` | static/scripts.js:311-314 | a cell's class is never empty and is the class of the first matching event; a cell no event matches has none |
| `Calendar.CellClassIsFirstMatch` | static/scripts.js:302-314 | a cell carries class `c` exactly when the first matching event has the non-empty class `c` |
| `Calendar.MonthGridOf` | static/scripts.js:288-300 | a month's grid is of that month and holds one cell per day, numbered 1 to the month's length |
| `Calendar.IsToday` | static/scripts.js:317 | a cell is flagged today exactly when the grid's year and month with the cell's day are today's date |
| `Calendar.CreateMonthDiv` | static/scripts.js:288-325 | one cell per day 1..daysInMonth, numbered in order, each with the first matching event's class and the today flag |
| `Calendar.FebruaryCells` | static/scripts.js:290 | a February grid has 29 cells in a leap year and 28 otherwise |
| `Calendar.February2024And2023` | static/scripts.js:290 | February 2024 has 29 cells and February 2023 has 28 |
| `Calendar.TodayFlag` | static/scripts.js:317-319 | the today flag does not depend on the events, marks at most one cell, and marks the cell of today's day exactly when the grid is today's month |
| `Calendar.ShiftedEventCell` | static/scripts.js:302-314 | an event starting 2024-03-04 tags day 5 of March 2024 and no other day |
| `Calendar.PackRows` | static/scripts.js:256-269 | the row packing never yields zero rows |
| `Calendar.PackRowsCount` | static/scripts.js:260-265 | there are ceil(n/4) rows (one empty row for no months), each with at most four months |
| `Calendar.PackRowsIndex` | static/scripts.js:260-268 | month `i` sits in row `i / 4` at position `i % 4` |
| `Calendar.PackRowsConcat` | static/scripts.js:260-268 | reading the rows in order gives back the months, so none is lost, repeated or reordered |
| `Calendar.AppendToRows` | static/scripts.js:261-268 | adding a month opens a new row every fourth month and otherwise extends the last row |
| `Calendar.GridsSnoc` | static/scripts.js:267 | one more month gives one more grid, at the end |
| `Calendar.FillRows` | static/scripts.js:256-269 | the row loop packs the month grids four to a row, as `PackRows` does |
| `Calendar.CalendarLayout` | static/scripts.js:243-270 | the calendar is a single grid exactly when the shifted range lists one month, and otherwise has at least one row |
| `Calendar.GenerateCalendar` | static/scripts.js:243-270 | the loop builds exactly `CalendarLayout`: the one month alone, or the month grids packed four to a row |
| `Calendar.CalendarShape` | static/scripts.js:243-270 | the layout is one grid exactly when the shifted range lists one month, and otherwise holds one grid per listed month in row order |
| `Calendar.EmptyRange` | static/scripts.js:249-258 | a start after the end gives one empty row |
| `Calendar.CalendarSkipsFebruary` | static/scripts.js:243-270 | the range 2023-01-30 to 2023-03-05 shows January and March only |
| `Report.ReportLines` | static/scripts.js:83 | `split('\n')` yields at least one line, none holding a line break, and joining them again gives back the report |
| `Report.ReportTextLines` | static/scripts.js:83 | a report written as lines joined by line breaks reads back as those lines, so both tables are the rows of those lines |
| `Report.WeatherReportTable` | static/scripts.js:82-83 | the weather table read from the report text has at most eleven rows and at most one per line |
| `Report.DayTypeReportTable` | static/scripts.js:130-131 | the day-type table read from the report text has at most one row per line, and only class rows |
| `Report.Columns` | static/scripts.js:97 | `trim().split(/\s+/)` never yields zero columns |
| `Report.NonEmptyParts` | static/scripts.js:97 | dropping empty parts keeps only non-empty columns |
| `Report.NonEmptyPartsId` | static/scripts.js:97 | parts that are all non-empty are kept unchanged |
| `Report.GapDropped` | static/scripts.js:97 | a run of whitespace before the text adds only empty parts, which are then dropped |
| `Report.HeadWord` | static/scripts.js:97 | a word followed by a run of whitespace is one column on its own |
| `Report.SpacedParts` | static/scripts.js:97 | words separated by runs of whitespace of any lengths are exactly the non-empty parts |
| `Report.SpacedEnds` | static/scripts.js:97 | a line of words separated by whitespace runs starts and ends with a word character |
| `Report.ColumnsOfWords` | static/scripts.js:97 | a line of whitespace-free words separated by runs of whitespace of any lengths, with any padding, splits into exactly those words |
| `Report.ClassRowOf` | static/scripts.js:103-118 | five or six columns give a class row whose four figures are the last four columns and whose name is the first column or the first two joined by a space; any other count gives no row |
| `Report.MapLines` | static/scripts.js:144-163 | the report is read one line at a time: one optional row per line, in line order |
| `Report.MapLinesAppend` | static/scripts.js:144 | reading two blocks of lines gives the rows of the first block, then those of the second |
| `Report.ClassLineRow` | static/scripts.js:103-110 | a five-column line, its columns aligned with runs of whitespace, becomes a class row with its five columns in order |
| `Report.TwoWordLabelRow` | static/scripts.js:111-118 | a six-column line, its columns aligned with runs of whitespace, becomes a class row whose name is the first two columns joined by one space |
| `Report.AccuracyLineDropped` | static/scripts.js:146-162 | the three-column accuracy line, however its columns are spaced, gives no day-type row |
| `Report.WeatherReportRows` | static/scripts.js:96-119 | the weather table has at most one row per line and at most eleven rows |
| `Report.WeatherRowAt` | static/scripts.js:97-119 | the line at index `lines.length - 1` gives a summary row, and every earlier line gives the same row as in the day-type table |
| `Report.WeatherRowsFirstEleven` | static/scripts.js:96 | only the first eleven lines of the weather report matter, and they give at most eleven rows |
| `Report.WeatherSummaryRow` | static/scripts.js:98-102 | a weather report of at most eleven lines ends with a summary row made of its last line's first two columns (the second absent when missing) |
| `Report.WeatherNoSummary` | static/scripts.js:96-98 | a weather report of twelve or more lines has only class rows |
| `Report.DayTypeReportRows` | static/scripts.js:144-163 | the day-type table has at most one row per line |
| `Report.LineRow` | static/scripts.js:145-162 | a day-type line gives a row exactly when it has five or six columns, and that row is a class row |
| `Report.DayTypeRowsAppend` | static/scripts.js:144-163 | the day-type rows of two blocks of lines are the rows of each block, in order |
| `Report.DayTypeRowsAreClassRows` | static/scripts.js:146-162 | the day-type report gives class rows only, never a summary row |
| `Report.ClassRowOfIsClassRow` | static/scripts.js:146-162 | a line gives a class row or no row at all |
| `Report.DayTypeRowPerLine` | static/scripts.js:146-162 | when every line has five or six columns, each line gives exactly one row, in order |
| `Aggregator.ParseCsvLine` | static/visuals.js:27 | the date field holds no comma, and the weather and day type are present exactly when the line has at least four and five fields |
| `Aggregator.ParseCsv` | static/visuals.js:24-29 | one record per line after the header |
| `Aggregator.CsvLineFields` | static/visuals.js:27-28 | a line of comma-free fields gives its first five fields, in order |
| `Aggregator.CsvLineShort` | static/visuals.js:27 | a line with fewer than five fields has no day type, and its date is its first field |
| `Aggregator.CsvRowsAreLines` | static/visuals.js:25-29 | the header line is dropped and each later line is parsed on its own, in order |
| `Aggregator.CountWhere` | static/visuals.js:84 | a filtered count never exceeds the number of records |
| `Aggregator.CountComplement` | static/visuals.js:84-85 | the records passing a test and those failing it together number all the records |
| `Aggregator.CountNone` | static/visuals.js:84 | the count is zero exactly when no record passes |
| `Aggregator.CalculateMonthlyAverages` | static/visuals.js:33-45 | twelve averages, the one for month index `m` being the mean of the minimum and maximum temperatures of the records dated in that month |
| `Aggregator.Mean` | static/visuals.js:42-43 | a mean is NaN exactly when the count is zero, and otherwise times the count gives back the sum |
| `Aggregator.AverageOf` | static/visuals.js:41-44 | both averages of a month are NaN exactly when the month has no records |
| `Aggregator.BucketOf` | static/visuals.js:34-40 | a month's count never exceeds the number of records, and an empty month has zero sums |
| `Aggregator.BucketCount` | static/visuals.js:35-39 | a month's count is the number of records dated in that month |
| `Aggregator.BucketCountsSum` | static/visuals.js:34-40 | the twelve month counts add up to the number of records |
| `Aggregator.MonthWithoutData` | static/visuals.js:41-44 | a month's averages are NaN exactly when no record falls in that month |
| `Aggregator.YearIgnored` | static/visuals.js:36 | the buckets depend only on the month of each date, not its year or day |
| `Aggregator.AveragesOrdered` | static/visuals.js:41-44 | when every record has minimum at most maximum, every month's average minimum is at most its average maximum |
| `Aggregator.Tallied` | static/visuals.js:56-60 | counting one record adds one to the group total and one to the tally of its weather, and leaves the other tallies alone; an unknown weather raises no tally |
| `Aggregator.GroupTally` | static/visuals.js:54-62 | a group's total never exceeds the number of records, and its four tallies add up to at most the total |
| `Aggregator.CategoryTally` | static/visuals.js:57-60 | each of a group's four tallies is the number of records of the group with exactly that weather |
| `Aggregator.DistributionOf` | static/visuals.js:64-76 | a group's four percentages are NaN together, exactly when the group total is zero |
| `Aggregator.GroupDistributionShares` | static/visuals.js:64-76 | each of a group's percentages is the number of the group's records with that weather divided by the group's size, times 100 |
| `Aggregator.CalculateWeatherDistribution` | static/visuals.js:48-79 | the loop's distributions are those of the working-day and non-working-day tallies, that is, each weather's share in percent of the working-day records and of the non-working-day records |
| `Aggregator.TotalIsGroupSize` | static/visuals.js:54-62 | a group's total is the number of records in that group |
| `Aggregator.TalliesAgainstTotal` | static/visuals.js:54-62 | the four category counts add up to at most the group total, and to exactly that when every record in the group has a known category |
| `Aggregator.GroupsDisjoint` | static/visuals.js:55-61 | the two group totals add up to at most the number of records, and to exactly that when every day type is one of the two |
| `Aggregator.IsWorkingDay` | static/visuals.js:55 | a working day's raw day type has at least the eleven characters of `working day`, and a working day is never also a non-working day |
| `Aggregator.IsNonWorkingDay` | static/visuals.js:58 | a non-working day's raw day type has at least the fifteen characters of `non-working day` |
| `Aggregator.Percent` | static/visuals.js:65-75 | `(x / total) * 100` is NaN exactly when the total is zero, and a zero count gives 0 |
| `Aggregator.CountDisjoint` | static/visuals.js:55-61 | two tests no record passes together count at most all records, exactly all when every record passes one |
| `Aggregator.PercentRange` | static/visuals.js:65-75 | a percentage is NaN exactly when the total is zero, and otherwise lies in 0..100 |
| `Aggregator.PercentSum` | static/visuals.js:65-75 | four percentages of one total add up to the percentage of the summed counts |
| `Aggregator.PercentHundred` | static/visuals.js:65-75 | a percentage is 100 exactly when the count is the total |
| `Aggregator.PercentOfParts` | static/visuals.js:64-76 | four percentages of counts within one total add up to at most 100, exactly 100 when the counts make up the total |
| `Aggregator.PercentComplement` | static/visuals.js:86-87 | the percentage of a count and that of the rest of the total add up to 100 |
| `Aggregator.GroupDistributionRange` | static/visuals.js:64-76 | a group's percentages are all NaN exactly when the group is empty, and otherwise each lies in 0..100 |
| `Aggregator.GroupDistributionSum` | static/visuals.js:64-76 | a non-empty group's four percentages add up to at most 100, exactly 100 when every record in it has a known category |
| `Aggregator.WorkingCount` | static/visuals.js:84 | the working-day count never exceeds the number of records |
| `Aggregator.NormalizeShape` | static/visuals.js:55 | a normalised day type is no longer than the original, has no ASCII capital, and neither starts nor ends with whitespace |
| `Aggregator.Normalize` | static/visuals.js:55 | `trim().toLowerCase()` never lengthens the day type |
| `Aggregator.CalculateDayTypePercentages` | static/visuals.js:82-89 | the working percentage is that of the working-day records among all records, and the non-working one that of all other records |
| `Aggregator.DayTypeSplitSum` | static/visuals.js:82-89 | both percentages are NaN exactly when there are no records, and otherwise they add up to 100 |
| `Aggregator.NonWorkingIsTheRest` | static/visuals.js:83-85 | the non-working count is the number of records whose day type is not "working day", including unknown ones |
| `Aggregator.WorkingCountsAgree` | static/visuals.js:84 | the working-day count of the day-type chart equals the working-day total of the distribution chart |
| `Forecast.DateRange` | app.py:80 | the days from start to end, both included, each the next day of the previous one; empty exactly when the start is after the end |
| `Forecast.DateRangeIncreasing` | app.py:80 | the dates of the range are strictly increasing |
| `Forecast.DateRangeFormattable` | app.py:80 | every date of a range between years 0 and 9999 lies in those years |
| `Forecast.IncreasingDistinct` | app.py:80 | in strictly increasing dates no date appears twice |
| `Forecast.DateRangeDistinct` | app.py:80 | no date appears twice in the range |
| `Forecast.ClassName` | app.py:122-129 | the class is one of the four, and rain always gives the rain class |
| `Forecast.ClassNamePriority` | app.py:122-129 | each event gets exactly one of four classes: rain, else snow, else working day, else cold day |
| `Forecast.Events` | app.py:117 | `zip` yields as many events as the shortest of its three inputs |
| `Forecast.EventFor` | app.py:118-129 | an event's start reads back as its date, and its class follows the class rule |
| `Forecast.BuildEvents` | app.py:116-130 | the loop builds one event per zipped position, whose start reads back as that date and whose class follows the rule |
| `Forecast.CountLabel` | app.py:103-104 | a label count never exceeds the number of labels |
| `Forecast.DayTypeCounts` | app.py:103-104 | the two day-type counts add up to at most the number of labels, and to exactly that when every label is one of the two |
| `Forecast.Predict` | app.py:80-130 | the handler's events are built from the date range, and the two counts count the predicted day types |
| `Forecast.EventsPerDate` | app.py:116-130 | with one prediction per date, there is one event per date, in date order, and the predictions change class names only |
| `Forecast.CountsWithinRange` | app.py:103-104 | the two counts together never exceed the number of dates |
| `Forecast.EventAt` | app.py:117-130 | the `k`-th event reads back as the `k`-th date and carries that date's class |
| `Forecast.EventsParse` | app.py:117-119 | as many events as dates at most, each reading back as the date at its position |
| `Forecast.ShiftedCellClass` | app.py:116-130 | for strictly increasing dates, the cell of the day after each date carries that date's class |
| `Forecast.EventLandsOnShiftedDay` | app.py:116-130 | in the browser's grid, the cell of the day after each date carries that date's class |
| `Forecast.TaggedCellIsShifted` | app.py:117-130 | a tagged cell is the day after the start date of some event |
| `Forecast.TaggedCellsComeFromDates` | app.py:116-130 | every tagged cell is the day after some date of the range |

## Left out

- Parsing by `new Date(...)` is modelled only for the `YYYY-MM-DD` form the backend writes. Time zones, daylight saving and time of day are left out. In the browser an ISO date is read as UTC midnight and then shifted in local time; that interplay is not modelled. `EventMatches` compares calendar fields after a whole-day shift.
- `pd.to_datetime` of the request fields is left out: the range endpoints are already dates.
- Form validation, `fetch`, the DOM, Chart.js rendering, `toLocaleString` month labels and the HTML markup of the report tables are left out. They are presentation or I/O. The rows are modelled as values, not as HTML strings.
- `parseFloat` and the conversion of CSV fields into dates and numbers are left out. `Aggregator.ParseCsv` gives the raw fields, and the three aggregates take records whose date is valid and whose temperatures are numbers.
- Malformed CSV lines are left out: the aggregates do not model the `TypeError` that a missing day type (`undefined.trim()`) or an invalid date (`months[NaN]`) raises. Such records cannot be built.
- Floating-point rounding is not modelled. Sums and percentages are exact reals. `NaN` from a zero divisor is `None`.
- `toLowerCase()` is modelled for ASCII letters only. Other letters map to themselves.
- `Civil.DaysInMonth` follows the Gregorian calendar for every year. `new Date(y, m, 0)` reads years 0..99 as 1900..1999, so there February of year 0 has 28 days in JavaScript and 29 in the model. No such date reaches the calendar, because the backend's date parsing refuses it first.
- `Civil.FormatIsoDate`: only years 0..9999 are formatted. The proofs need the four-digit form, and the range covers every date the application uses.
- `Civil.ParseIsoDate` reads a well-shaped string that names no calendar day (`2024-02-30`) as no date. JavaScript engines differ there: some roll the day over into the next month. The backend writes only real dates, so the case does not arise.
- The machine-learning part of `app.py` is left out. That covers training, prediction, label encoding, scores and the classification report text. Predicted labels and report lines are inputs.
- `classList.add` is modelled as the optional class of a cell. The DOM's class-set semantics are not modelled.
