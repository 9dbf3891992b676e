# Patients on site: a Dafny model of the weekly occupancy pipeline

This project models the data path of `ecds_patients_at_site.py`. The script reads
emergency department stays, one row per patient stay with an arrival and a departure
date and time and a site code. It turns every stay into one row per hour the patient
spent on site, counts the patients and arrivals for every date, hour and site, cuts off
the week still in progress, and summarises each Monday-to-Sunday week per site. The
weekly summary holds:

- the mean number of patients on site per hour of the week;
- the mean number of arrivals per hour;
- a completeness ratio, the share of the week's 168 hours that have any patient at all;
- the financial-year label and the month label of the week's Monday.

The project has one module per stage:

| file | module | what it models |
|---|---|---|
| `wrappers.dfy` | `Wrappers` | `Option` and `Result` |
| `text.dfy` | `Text` | `str.split` on one character, `int()` of a string, `str()` of an int |
| `calendar.dfy` | `Calendar` | Python dates: ordinals, weekdays, `timedelta` days, `relativedelta` months and years, Monday and Sunday of a week |
| `window.dfy` | `DateWindow` | `process_date_window` and the snap of the window start to a Monday |
| `expansion.dfy` | `Expansion` | `get_hour`, `hours_in_site` (a method with its loop, proved against the function `StayHours`) and the driver loop over all stays (method `ExpandAll`) |
| `grouping.dfy` | `Grouping` | the pandas group-by with counted and summed columns, written once for any key |
| `hourly.dfy` | `Hourly` | the hourly group-by, the most recent week start and the cut-off filter |
| `labels.dfy` | `Labels` | the `fin_year` and `month` columns |
| `weekly.dfy` | `Weekly` | the weekly group-by, the means and the completeness |
| `pipeline.dfy` | `Pipeline` | the script from the window to the weekly table (method `Run`) and end-to-end properties |

Days are Python ordinals (0001-01-01 is day 1). Weekday 0 is Monday, as in
`date.weekday()` and `dt.dayofweek`. The clock is a parameter: `today` is the day that
`datetime.now()` returns. A stay's times are text such as `"08:15"`, as the script reads
them.

## Model

| member | source | states |
|---|---|---|
| Text.JoinSplit | ecds_patients_at_site.py:45 | joining the fields of `split(" ")` with the separator gives back the window text |
| Text.Split | ecds_patients_at_site.py:45 | `str.split` on one separator character: at least one field and no field holds the separator; JoinSplit and SplitCount tie it to the text |
| Text.SplitCount | ecds_patients_at_site.py:45-48 | `split` gives one more field than there are separators, so two fields means exactly one space |
| Text.ParseShow | ecds_patients_at_site.py:56 | `int(str(n)) == n` for every integer, so an amount written in decimal reads back as itself |
| Text.Show | ecds_patients_at_site.py:203 | `str()` of an int: a minus sign for a negative number, then the decimal digits without leading zeros; ParseShow reads it back |
| Text.ParseInt | ecds_patients_at_site.py:56 | `int()` of a string: ASCII white space around one optional sign and ASCII digits with single underscores between them, otherwise no value where `int()` raises ValueError; ParseShow and GetHourTwoDigits state what it reads |
| Calendar.OrdinalOrder | ecds_patients_at_site.py:143 | Python's order on dates (year, then month, then day) is the order of their ordinals |
| Calendar.OrdinalInjective | ecds_patients_at_site.py:143 | two dates with the same ordinal are the same date |
| Calendar.InPythonRangeByOrdinal | ecds_patients_at_site.py:42 | the dates Python can hold, years 1 to 9999, are exactly the ordinals 1 to 3652059 |
| Calendar.AddDays | ecds_patients_at_site.py:42 | adding a `timedelta` of k days moves the ordinal by exactly k |
| Calendar.AddDaysTwice | ecds_patients_at_site.py:42 | two day shifts in a row are one shift by their sum |
| Calendar.FromOrdinalOrdinal | ecds_patients_at_site.py:103-104 | every calendar date is the date of its ordinal, so day numbers stand for the date columns without loss |
| Calendar.MondayOf | ecds_patients_at_site.py:181 | the week start of a day is a Monday, 0 to 6 days before the day |
| Calendar.SundayOf | ecds_patients_at_site.py:182 | the week end of a day is a Sunday, 0 to 6 days after the day |
| Calendar.MondayOfIff | ecds_patients_at_site.py:181 | the week start of n is w exactly when w is a Monday and n lies in w to w + 6 |
| Calendar.SundayIsMondayPlusSix | ecds_patients_at_site.py:181-182 | the week end is always the week start plus six days |
| Calendar.MondayOfIdempotent | ecds_patients_at_site.py:181 | the week start of a Monday is that Monday |
| Calendar.WeekStart | ecds_patients_at_site.py:74 | snapping a calendar date to its week's Monday gives the day MondayOf gives for its ordinal |
| Calendar.ShiftMonths | ecds_patients_at_site.py:62 | stepping n months moves the month count by exactly n; the day is kept, or clamped to the last day of a shorter month |
| Calendar.ShiftYears | ecds_patients_at_site.py:65 | stepping n years keeps the month; the day is kept, except that 29 February becomes 28 February when the target year is not a leap year |
| Calendar.YearsAreTwelveMonths | ecds_patients_at_site.py:62-65 | a step of n years is a step of 12n months |
| Calendar.ShiftMonthsKeepsEarlyDays | ecds_patients_at_site.py:62 | days up to the 28th are never clamped |
| DateWindow.ProcessDateWindow | ecds_patients_at_site.py:39-68 | a start it returns is a date Python can hold; for a bare number n the start is n - 1 days before `date_end` |
| DateWindow.StepBack | ecds_patients_at_site.py:55-65 | n days covers n days ending on `date_end`; n weeks covers 7n days; n months lowers the month count by n; n years lowers the year by n and keeps the month; for months and years the day is kept, or clamped to the length of the target month, as `relativedelta` does |
| DateWindow.MalformedIffNotOneSpace | ecds_patients_at_site.py:45-49 | the window text is rejected as badly formatted exactly when it does not hold exactly one space |
| DateWindow.UnsupportedUnitRejected | ecds_patients_at_site.py:51-68 | any unit other than day, week, month or year, after one trailing `s` is dropped, is rejected whatever the amount |
| DateWindow.NotANumberIffUnreadable | ecds_patients_at_site.py:45-59 | with one space and a supported unit, the window fails as not a number exactly when `int()` cannot read the amount, as "three weeks" does |
| DateWindow.Unit | ecds_patients_at_site.py:51-52 | the unit field with one trailing `s` dropped, so "weeks" and "week" are one unit; UnsupportedUnitRejected and WrittenWindowStart state what it accepts |
| DateWindow.WrittenWindowStart | ecds_patients_at_site.py:45-65 | "n unit" and "n units" give the start StepBack gives, failing only outside Python's years, with the day and week lengths above |
| DateWindow.OneDayWindowIsToday | ecds_patients_at_site.py:55-56 | "1 day" and "1 days" both start the window on `date_end` |
| DateWindow.QueryWeekStart | ecds_patients_at_site.py:71-74 | the query start fails exactly when the window does; otherwise it is the Monday of the window start |
| DateWindow.QueryWeekStartIsMonday | ecds_patients_at_site.py:74 | the query start is a Monday, 0 to 6 days before the window start, and still a date Python can hold |
| Expansion.GetHourTwoDigits | ecds_patients_at_site.py:118-119 | a time that starts with two digits gives the two-digit number they spell, whatever follows |
| Expansion.GetHour | ecds_patients_at_site.py:118-119 | `int()` of the first two characters of a time; GetHourTwoDigits, GetHourOfClockTime and SingleDigitHourRejected state what it reads |
| Expansion.GetHourOfClockTime | ecds_patients_at_site.py:118-119 | the hour of a zero-padded clock time "HH..." reads back as HH |
| Expansion.SingleDigitHourRejected | ecds_patients_at_site.py:118-119 | a time without a leading zero such as "8:30" cannot be read (`int("8:")` raises) |
| Expansion.StayClock | ecds_patients_at_site.py:126-128 | a stay's arrival and departure hours, when they can be used, are both clock hours 0 to 23 |
| Expansion.Advance | ecds_patients_at_site.py:152-156 | one step of the loop: hour 23 goes to hour 0 of the next day, any other hour goes up by one; ExpansionConsecutive and NoWrapAboveClock state it |
| Expansion.OnSite | ecds_patients_at_site.py:143 | the loop condition: before the departure date, or on it and not past its hour; ExpansionLength, ExpansionEndsAtDeparture and LoopNeverEnds state when it stops holding |
| Expansion.Expansion | ecds_patients_at_site.py:133-156 | the rows the loop builds for a stay whose hours are on the clock; WalkStay proves the loop equal to it, and ExpansionCoversStay and ExpansionLength tie it to the stay |
| Expansion.WalkStay | ecds_patients_at_site.py:133-156 | the loop emits exactly the walk of the stay: one row per hour from the arrival slot to the departure slot |
| Expansion.HoursInSite | ecds_patients_at_site.py:122-158 | `hours_in_site` returns the rows of StayHours, or the error for a time it cannot read or an hour off the clock |
| Expansion.StayHours | ecds_patients_at_site.py:122-158 | the rows `hours_in_site` returns, or the error for a time it cannot read or an hour off the clock; the Expansion lemmas below state their shape |
| Expansion.ExpansionConsecutive | ecds_patients_at_site.py:143-156 | the rows start at the arrival date and hour, and each next row is the hour after the one before, hour 23 being followed by hour 0 of the next day |
| Expansion.ExpansionLength | ecds_patients_at_site.py:143 | a stay has (departure − arrival) in hours + 1 rows, and none when it departs before it arrives |
| Expansion.ExpansionEndsAtDeparture | ecds_patients_at_site.py:143 | a stay with any rows ends on the departure date and hour |
| Expansion.ExpansionRows | ecds_patients_at_site.py:140-149 | every row is one patient at the stay's site in a clock hour, and only the first row counts as an arrival |
| Expansion.ExpansionDistinctSlots | ecds_patients_at_site.py:143-156 | no two rows of one stay fall in the same date and hour |
| Expansion.ExpansionCoversStay | ecds_patients_at_site.py:143-156 | a date and hour has a row exactly when it lies between the arrival and the departure, both included |
| Expansion.NoWrapAboveClock | ecds_patients_at_site.py:152-156 | as written, from an hour above 23 the hour only grows and the date never advances |
| Expansion.LoopNeverEnds | ecds_patients_at_site.py:143-156 | as written, an arrival hour above 23 with a later departure date keeps the loop condition true forever |
| Expansion.ExpandAll | ecds_patients_at_site.py:161-163 | the driver loop gives ExpandStays: all stays' rows concatenated in order, or the first stay's error |
| Expansion.ExpandStays | ecds_patients_at_site.py:161-163 | the driver loop as a value: all stays' rows concatenated in order, or the first stay's error; ExpandAll, ExpandStaysOk and ExpandStaysFailurePersists state it |
| Expansion.ExpandStaysFailurePersists | ecds_patients_at_site.py:161-163 | once a stay fails, the whole loop fails with that stay's error |
| Expansion.ExpandStaysOk | ecds_patients_at_site.py:161-163 | the loop succeeds exactly when every stay's hours can be read and are on the clock |
| Expansion.StayArrivals | ecds_patients_at_site.py:140-149 | a stay's rows hold one arrival if it has any rows, and none otherwise |
| Expansion.ExpandStaysTotals | ecds_patients_at_site.py:161-165 | the hour table has one row per hour on site of every stay, and one arrival per stay with any hours |
| Grouping.GroupByKeys | ecds_patients_at_site.py:173 | the groups have pairwise different keys, and a key has a group exactly when some row has it |
| Grouping.GroupBy | ecds_patients_at_site.py:173 | the pandas group-by with a count and sums, written once for any key and used at lines 173 and 192-194; GroupByKeys, GroupByTotals and GroupByGrandTotals state it |
| Grouping.GroupByTotals | ecds_patients_at_site.py:173 | each group carries the count and the sums of exactly the rows with its key |
| Grouping.GroupByGrandTotals | ecds_patients_at_site.py:173 | grouping loses no row: the groups' totals add up to the totals of all rows |
| Grouping.GroupByDistinctRows | ecds_patients_at_site.py:173 | rows with pairwise different keys come out as one group each, in the same order |
| Grouping.GroupByKept | ecds_patients_at_site.py:192-194 | keeping the groups whose keys pass a test has the totals of keeping the rows that pass it |
| Hourly.HourlyKeys | ecds_patients_at_site.py:173 | the hourly table has one row per date, hour and site that occurs in the hour table, and no other |
| Hourly.HourlyAggregate | ecds_patients_at_site.py:173 | the hourly group-by: one row per key with the count and the arrivals sum; HourlyKeys, HourlyCounts and HourlyTotals state it |
| Hourly.HourlyCounts | ecds_patients_at_site.py:173 | each row's patients is the number of hour rows with its key and its arrivals their sum |
| Hourly.HourlyTotals | ecds_patients_at_site.py:173 | the patients column adds up to the number of hour rows, and the arrivals column keeps its total |
| Hourly.HourlyTotalsOfStays | ecds_patients_at_site.py:161-173 | over the stays, patients add up to all hours on site and arrivals to the stays with any hours |
| Hourly.HourlyHours | ecds_patients_at_site.py:173 | the hourly table's hours stay on the clock and every row has at least one patient |
| Hourly.ReaggregationCountsRows | ecds_patients_at_site.py:173 | aggregating the hourly table again keeps its rows but sets every patients value to 1, so the step is not idempotent |
| Hourly.MostRecentWeekStartIsLastMonday | ecds_patients_at_site.py:176 | the cutoff is a Monday, 7 to 13 days before today: the Monday before this week's Monday |
| Hourly.MostRecentWeekStart | ecds_patients_at_site.py:176 | the cutoff: today stepped back by its weekday plus seven days; MostRecentWeekStartIsLastMonday states which day that is |
| Hourly.BeforeCutoffKeeps | ecds_patients_at_site.py:178 | the filter keeps exactly the rows dated before the cutoff |
| Hourly.BeforeCutoff | ecds_patients_at_site.py:178 | the filter on the date, in table order; BeforeCutoffKeeps and BeforeCutoffKeepsShape state what it keeps |
| Hourly.WholeWeeksKept | ecds_patients_at_site.py:176-182 | cutting at a Monday keeps or drops whole weeks: a day is before it exactly when its week's Sunday is |
| Hourly.BeforeCutoffKeepsShape | ecds_patients_at_site.py:178 | the filter keeps the keys of the hourly table pairwise different |
| Labels.FiscalYearSpan | ecds_patients_at_site.py:202-204 | the period year q of a date is the financial year from 1 April of q − 1 up to 1 April of q |
| Labels.FiscalQYear | ecds_patients_at_site.py:202-204 | the `Q-MAR` period year: the calendar year, plus one from April on; FiscalYearSpan and FiscalYearUnique state which financial year it names |
| Labels.FinYearLabel | ecds_patients_at_site.py:202-204 | `str(q - 1) + '-' + str(q - 2000)`; FinYearLabelReadsBack and FinYearLabelNotPadded state its shape |
| Labels.FinYear | ecds_patients_at_site.py:202-204 | the label of the financial year of a week's Monday; WeeklyLabelsAt states it |
| Labels.MonthAbbrev | ecds_patients_at_site.py:205 | the English three-letter name of the Monday's month; MonthNamesDistinct and WeeklyLabelsAt state it |
| Labels.FiscalYearUnique | ecds_patients_at_site.py:202-204 | no other year's financial year holds the date |
| Labels.FinYearLabelReadsBack | ecds_patients_at_site.py:202-204 | from 2000 on, the label splits at its dash into the two years, and they read back as numbers |
| Labels.FinYearLabelNotPadded | ecds_patients_at_site.py:203 | the second year is not zero padded: the year ending in 2009 is "2008-9" |
| Labels.MonthNamesDistinct | ecds_patients_at_site.py:205 | the twelve month names are three letters each and pairwise different |
| Weekly.WeekKeyOfIff | ecds_patients_at_site.py:181-182 | an hour row is in a week exactly when the week runs from a Monday to the Sunday six days later and holds the row's date and site |
| Weekly.WeekOfKey | ecds_patients_at_site.py:181-182 | the week columns of a date, hour and site: the Monday and the Sunday around the date, at the same site; WeekKeyOfIff states it |
| Weekly.WeekKeyOf | ecds_patients_at_site.py:181-182 | the week columns of an hourly row, those of its key; WeekKeyOfIff states it |
| Weekly.PerWeekHour | ecds_patients_at_site.py:197-199 | division by the 168 hours of a week, exact; WeeklyRowAt and CompletenessAt state the columns it gives |
| Weekly.WeeklyGroups | ecds_patients_at_site.py:190-194 | the weekly group-by over the week columns and the site, with the completeness column of 1s counted; WeeklyGroupKeys, WeeklyGroupTotals and WeeklyGroupCompleteness state it |
| Weekly.WeeklyAggregate | ecds_patients_at_site.py:192-210 | the weekly group-by and the projected columns, one row per group; WeeklyGroupKeys, WeeklyRowAt and CompletenessAt state it |
| Weekly.WeeklyRowOf | ecds_patients_at_site.py:197-210 | one weekly row: the week, its labels, its site and its sums and row count over 168; WeeklyRowAt and WeeklyLabelsAt state it |
| Weekly.WeeklyGroupKeys | ecds_patients_at_site.py:192-194 | one group per week and site with an hourly row, and no other |
| Weekly.WeeklyGroupWeeks | ecds_patients_at_site.py:181-194 | every group is a Monday-to-Sunday week |
| Weekly.WeeklyGroupTotals | ecds_patients_at_site.py:192-194 | every group carries the count and the sums of exactly its week's rows at its site |
| Weekly.WeeklyRowAt | ecds_patients_at_site.py:192-199 | each weekly row is a Monday-to-Sunday week with its sums and count divided by 168 |
| Weekly.WeeklyLabelsAt | ecds_patients_at_site.py:202-205 | the labels name the financial year holding the week's Monday and the Monday's month |
| Weekly.WeekRowCount | ecds_patients_at_site.py:190-199 | on the hourly table a week has at most 168 rows at a site, and 168 exactly when every hour of the week has one |
| Weekly.WeeklyGroupCompleteness | ecds_patients_at_site.py:190-194 | every weekly group counts 1 to 168 rows, and 168 exactly when the week is full |
| Weekly.CompletenessAt | ecds_patients_at_site.py:190-199 | completeness lies in (0, 1], and is 1 exactly when every hour of the week has a row at the site |
| Weekly.WeekOfHourlyTable | ecds_patients_at_site.py:173-194 | summing a week of the hourly table gives the week's number of hour rows and their arrivals |
| Weekly.CutoffKeepsWeek | ecds_patients_at_site.py:178 | cutting at a Monday after a week's start keeps all of that week's rows |
| Weekly.HourlyKeyBeforeCutoff | ecds_patients_at_site.py:173-178 | before the cutoff, a date, hour and site is in the cut hourly table exactly when some hour row has it |
| Pipeline.Run | ecds_patients_at_site.py:71-210 | the script's result is WeeklyOccupancy: a window error, a stay error, no hour rows at all, or the weekly table |
| Pipeline.WeeklyOccupancy | ecds_patients_at_site.py:71-210 | the script as a value: the window error, or the result of WeeklyOfStays; Run and the Pipeline lemmas state it |
| Pipeline.WeeklyOfStays | ecds_patients_at_site.py:108-210 | the departed stays' hour table grouped, cut and summarised, failing on the first unusable stay or on an empty hour table; WeeklyOfStaysFails and WeeklyOfStaysRow state it |
| Pipeline.Departed | ecds_patients_at_site.py:111 | the filter on the departure date, in the order of the stays; its properties are DepartedKeeps |
| Pipeline.DepartedCopies | ecds_patients_at_site.py:111 | every copy of a stay that departed today or earlier is kept and no copy of any other, so identical stays are all counted |
| Pipeline.DepartedKeeps | ecds_patients_at_site.py:111 | the filter keeps exactly the stays that departed today or earlier, each as many times as it occurs, and is no longer than its input |
| Pipeline.ExpandedKeys | ecds_patients_at_site.py:143-163 | the hour table has a row for a date, hour and site exactly when some stay at that site was on site then |
| Pipeline.ExpandedArrivals | ecds_patients_at_site.py:140-163 | the arrivals in a week's hour rows are the number of stays with any hours whose first hour falls in that week at that site |
| Pipeline.WeeklyOfStaysFails | ecds_patients_at_site.py:108-173 | after the window the run fails on a departed stay exactly when some departed stay's hours cannot be used; it fails with no hour rows exactly when the departed stays have no hours at all |
| Pipeline.WeeklyFromHoursRow | ecds_patients_at_site.py:173-199 | each weekly row is a whole week ending before the cutoff, with the means of its hour rows and a completeness that is 1 exactly when the week is full |
| Pipeline.WeeklyFromHours | ecds_patients_at_site.py:173-210 | the hour rows grouped by hour, cut at the most recent week start and summarised by week; WeeklyFromHoursRow states each row |
| Pipeline.FullWeekOfStays | ecds_patients_at_site.py:143-165 | the hour table fills a week at a site exactly when at every hour of it some stay at the site was on site |
| Pipeline.CompleteWeekOfStays | ecds_patients_at_site.py:108-199 | a week's completeness is 1 exactly when at every one of its 168 hours some departed stay at its site was on site |
| Pipeline.WeeklyOfStaysRow | ecds_patients_at_site.py:108-199 | each weekly row is a Monday-to-Sunday week ending at least 8 days before today; its patients mean is its hours on site over 168, its arrivals mean the stays arriving in it over 168, and its completeness lies in (0, 1] |

## Left out

- Environment settings, the database connection, the SQL text and the upload of the result are I/O. This covers lines 13-31, 82-92 and 214-243. The stays are a parameter.
- The DATE_WINDOW setting read from the environment is always text. The bare-number branch of `process_date_window` (line 42) is modelled all the same, as `Days(n)`.
- The query condition at line 89 only shapes which stays the database returns. The model reads the window and reports its errors, but takes the returned stays as given.
- `datetime.now()` is the parameter `today`, one day used for both reads of the clock. Times of day are not modelled beyond the hour read from the time text. So the window start and its Monday are dates, and a departure on today counts as departed.
- The dtype conversions at lines 103-104 are not modelled: dates arrive as day numbers. Dates that pandas cannot parse are not modelled either, nor missing values.
- pandas sorts the group keys and the model keeps first-appearance order. The set of rows, their keys and their values are the same; only the row order differs.
- The means and the completeness are exact rational numbers (`real`), where pandas divides in floating point.
- Pandas' timestamp bounds (the years 1677 to 2262) are not modelled. Day numbers are unbounded, and only the window start is checked against Python's years 1 to 9999.
- `strftime("%b")` is the English month abbreviation, taken as a fixed table; other locales are not modelled.
- `relativedelta` is modelled for whole months and years only, which is all the script uses.
- Text.ParseInt: only ASCII digits (with single underscores between them) and the ASCII white space space, tab, newline, vertical tab, form feed and carriage return are read. Python's `int()` also reads other Unicode decimal digits (`int("٨") == 8`, full-width digits) and strips other white space (`\xa0`, `\x1c` to `\x1f`). So in the model an arrival time such as "٠٨:15" has no hour, and a window such as "\xa03 weeks" is not a number.
- Expansion.HoursInSite: an hour outside 0 to 23 is the error `HourOutOfRange` in the model, which stops the whole run. As written, the script does one of three things with such a stay. The loop never ends when the arrival hour is above 23 and the arrival date is before the departure date. It emits hours off the clock when the arrival hour is above 23 on the departure date, up to the departure hour, or when the arrival hour is negative (`int("-1")` is -1). It returns normally when the departure hour is off the clock and the arrival hour is not, as with a departure at "24:00": the rows end at 23:00 of the departure date, or earlier for a negative departure hour. It also returns normally, with no rows, when the arrival hour is above 23 and the arrival is after the departure date and hour. In every one of these cases the model reports the error instead; see Findings.
- The script's printed progress messages are left out.
- In these places the model follows the code, where one might expect otherwise:
  - a departure before the arrival gives no rows rather than an error;
  - the second year of `fin_year` is not zero padded;
  - an empty hour table stops the script (pandas raises KeyError on the missing columns), modelled as `NoHourRows`;
  - re-aggregating the hourly table is not idempotent.

## Findings

| source | as written | input that shows it | evidently intended | confidence | as-written member | corrected member |
|---|---|---|---|---|---|---|
| ecds_patients_at_site.py:118-156 | `get_hour` does not check the range of the hour it reads. From an hour above 23 the wrap at 23 is never reached, so the hour keeps growing and the date never advances. | arrival time "25:00" on day d, departure on day d + 1: the loop condition never becomes false | stop with an error for an hour outside 0 to 23 | not executed | Expansion.LoopNeverEnds | Expansion.HoursInSite |
