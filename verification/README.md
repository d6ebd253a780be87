# Restaurant back office: tips pool, daily income, payroll reports and time clock

This project models, in Dafny, the logic of two client-side screens of a
restaurant's back office and proves properties of that model.

- **Tips pool** (`frontend/src/App.js`). For each date the pool keeps a total
  and one row per position. Each row holds a percentage of the total, a
  headcount and one column per employee with the hours worked and the tips
  received. Every row edit recomputes every tip of the day as the hour-weighted
  split `total * percentage / 100 * hours / rowHours`, or 0 when the row's hours
  do not add up to a positive amount. Setting the total replaces only the total.
  A status says whether the percentages add up to less than, exactly, or more
  than 100. The day can be exported as CSV.
- **Daily income** (`frontend/src/App.js`). For each date there is one row per
  employee with the net sales, tips and gratuity as typed. Each row also holds
  three derived amounts: 5% of the net sales (0 when the row is excluded), tips
  plus gratuity, and that sum less the 5%. Totals are computed per day, over a
  selection of days, and per employee (matched by trimmed, lower-cased name). A
  day can be exported as CSV.
- **Payroll reports** (`frontend/src/App.js`).
  - An uploaded time-clock CSV is read into shifts. The header and blank lines
    are dropped. Lines are split on the commas outside double quotes. Short or
    incomplete lines and salaried employees are skipped.
  - Each shift is paid its payable hours times its job title's rate (9.99 for
    an unknown title), rounded to the cent.
  - A report can be analysed (grouped by employee and by position, with totals
    and averages) and exported as CSV: one block per employee with a total line
    whose hours are also shown as a sum of `H:mm` texts.
  - The calendar steps month by month. It lays out a Monday-first month grid
    keyed by `YYYY-MM-DD` dates and marks the days that hold a report, income
    rows or a tips pool.
- **Time clock** (`app/employeeTime.jsx`). It keeps a list of employees and a
  list of time entries; an entry with no end is an open shift.
  - Clocking in refuses a second open shift for the same employee. Clocking out
    closes the employee's first open shift.
  - Entries can also be added by hand, edited and removed.
  - A date-range and employee filter lists the entries newest first. A summary
    sums each employee's hours and pay. A CSV export writes one line per
    listed entry.

Money and hours are `real`. Timestamps are integers in milliseconds. The
current time, new ids, and the user's confirmation are parameters.
JavaScript's default number-to-text conversion and `toLocaleString` are passed
in as functions (`show`, `fmt`). `toFixed(2)` is modelled exactly on reals
(`Text.Fixed2`), and so is `parseFloat` on decimal text (`Text.ParseFloat`).
`Number` is modelled on integer texts only (`Text.NumberToInt`); see
"Left out". Setting the tips-pool total does **not** recompute the stored
tips (`TipsPool.SetTotalLeavesTipsStale`).

Files: `text.dfy` (JavaScript string and number built-ins), `tips_pool.dfy`,
`income.dfy`, `payroll_hours.dfy` (`H:mm` texts), `payroll_import.dfy`,
`payroll_analysis.dfy`, `payroll_export.dfy`, `calendar.dfy`, `timekeeper.dfy`.
The state updaters that the source writes as pure spreads, `map` and `filter`
are functions. The loops (`sumHHmmTimes`, the import, the analysis `reduce`s,
the CSV writers, the day grid, `clockOut`, the summary and the time-clock
export) are methods proved equal to a specification function, and the
properties are proved about that function.

## Model

| member | source | states |
|---|---|---|
| Text.Trim | frontend/src/App.js:553 | `trim()` leaves no white space at either end and returns a string that has none at its ends unchanged |
| Text.TrimDrops | frontend/src/App.js:553 | `trim()` returns the text with a white prefix and a white suffix cut off: what it drops at either end is all white space |
| Text.TrimEmpty | frontend/src/App.js:247 | a line trims to empty exactly when it is all white space (the blank-line filter) |
| Text.ToLower | frontend/src/App.js:553 | `toLowerCase()` keeps the length, lowers each ASCII and Latin-1 capital (A-Z, À-Þ except ×) by 32 code points, leaves no such capital and keeps every other character |
| Text.SplitOnJoins | frontend/src/App.js:162 | joining the parts of a split with the separator gives the text back |
| Text.SplitJoin | frontend/src/App.js:367 | splitting a join of parts that do not hold the separator gives the parts back |
| Text.Filter | frontend/src/App.js:526 | `filter` keeps exactly the elements that pass, each as often as in the list |
| Text.FilterConcat | app/employeeTime.jsx:113 | filtering a concatenation filters each part in turn, so `filter` keeps the list's order |
| Text.JoinSplitPart | app/employeeTime.jsx:140-144 | a part that holds the separator joins like the two parts on either side of it |
| Text.Round | frontend/src/App.js:155 | `Math.round(x)` lies within half a unit of `x` |
| Text.RoundCents | frontend/src/App.js:282 | the value `toFixed(2)` writes lies within half a cent of the number |
| Text.ParseFixed2 | frontend/src/App.js:282 | `parseFloat(x.toFixed(2))` reads back `x` rounded to the cent |
| Text.NumberOfIntToString | frontend/src/App.js:162 | `Number` reads back every integer as written |
| Text.NumberOfPadded | frontend/src/App.js:156 | a natural number padded to two digits with `padStart(2, '0')` reads back as itself |
| TipsPool.RedistributeBalances | frontend/src/App.js:697-717 | recomputing a row keeps everything but the tips and gives each employee `total * pct / 100 * hours / rowHours`, or 0 when the row's hours are not positive |
| TipsPool.RowTipsAddUp | frontend/src/App.js:697-717 | a balanced row whose hours are positive hands out exactly `total * pct / 100` in tips |
| TipsPool.RedistributeAllSplits | frontend/src/App.js:719-749 | recomputing every row leaves every tip of the day split from the total, and each staffed row's tips add up to its share |
| TipsPool.UpdateSplitsTips | frontend/src/App.js:642-759 | after any row edit every tip of the date is the hour-weighted split of the stored total |
| TipsPool.UpdateFrame | frontend/src/App.js:642-759 | a row edit changes only its date and keeps the total; a blank row is appended when the index is one past the end; the edited row takes the edit; the other rows keep everything but their tips |
| TipsPool.ResizeColumns | frontend/src/App.js:665-683 | setting the headcount to n leaves n columns: the first min(n, old) unchanged, the rest blank with ids `now`, `now + 1`, ... |
| TipsPool.UpdateResizes | frontend/src/App.js:665-683 | after a headcount edit the row has n columns, the kept ones with their id, name and hours, the added ones blank with no tips |
| TipsPool.EmployeeEdit | frontend/src/App.js:684-695 | a name or hours edit changes that field of that column only; an index outside the columns changes nothing |
| TipsPool.SyncedInvariant | frontend/src/App.js:642-793 | headcount and column count stay equal under row edits, adding and deleting rows, and setting the total |
| TipsPool.BalancedInvariant | frontend/src/App.js:761-793 | adding or deleting a row keeps every stored tip split from the total |
| TipsPool.AddAppends | frontend/src/App.js:761-778 | a new row is blank and goes last, the total is kept, an unseen date starts as `{total: 0, rows: [row]}`, and every other date is unchanged |
| TipsPool.DeleteRemoves | frontend/src/App.js:781-793 | deleting at a valid index removes exactly that row and keeps the others in order; any other index changes nothing; the total and every other date are kept |
| TipsPool.DeleteUndoesAdd | frontend/src/App.js:761-793 | deleting the row just added gives the day back |
| TipsPool.SetTotalKeepsRows | frontend/src/App.js:1090-1096 | setting the total replaces the total with the number typed (0 when none) and leaves the rows and every other date as they were |
| TipsPool.SetTotalLeavesTipsStale | frontend/src/App.js:1090-1096 | a balanced day whose total is cleared keeps its old tips, which then disagree with the total |
| TipsPool.PercentageSumAddDelete | frontend/src/App.js:795-798 | adding a blank row leaves the percentage sum alone; deleting a row takes its percentage off |
| TipsPool.PercentageSumUpdate | frontend/src/App.js:795-798 | a percentage edit moves the sum from the row's old percentage to the new one; other edits leave it alone |
| TipsPool.StatusOf | frontend/src/App.js:1105-1114 | "remaining" exactly when the sum is below 100 (with the amount missing), "all assigned" exactly at 100, "over" exactly above (with the excess) |
| TipsPool.DayTipsShare | frontend/src/App.js:697-749 | when every row is balanced and staffed, the day's tips add up to `total * sum of percentages / 100` |
| TipsPool.AllAssignedHandsOutTotal | frontend/src/App.js:1101-1114 | with the status "all assigned" and every row balanced and staffed, the tips handed out add up to the total |
| TipsPool.ConvertTipsPoolToCsv | frontend/src/App.js:800-840 | the export loop writes exactly the specified text: nothing for a date without rows, else header, total line, blank line, then each row's lines |
| TipsPool.TipsPoolCsvLines | frontend/src/App.js:800-840 | read back line by line, the export is the header, the total, a blank line and one line per employee column (one for a row without any), in order |
| Income.UpdateSetsField | frontend/src/App.js:440-466 | a field edit sets that field of that row only, keeps its id and exclusion flag, leaves its derived amounts consistent, and changes no other row or date |
| Income.ToggleFlips | frontend/src/App.js:474-493 | toggling replaces that row only, by the row with its flag flipped and its amounts recomputed: 5% is 0 when excluded and `netSales * 0.05` otherwise, with T+G and T+G-5% consistent; id, name, position and typed amounts are kept |
| Income.ToggleTwice | frontend/src/App.js:474-493 | toggling a consistent row twice gives the store back |
| Income.AddAppends | frontend/src/App.js:421-439 | a new row with id `now`, empty name, position, net sales, tips and gratuity, zero amounts and not excluded goes last; it is consistent; every other date is unchanged |
| Income.DeleteRemoves | frontend/src/App.js:467-472 | deleting at a valid index removes exactly that row and keeps the others in order; any other index changes nothing; every other date is unchanged |
| Income.TotalsConsistent | frontend/src/App.js:503-521 | the totals of consistent rows are consistent: T+G is tips plus gratuity, T+G-5% is T+G less the 5%, and with nobody excluded the 5% is 5% of the net sales |
| Income.UpdateMovesTotals | frontend/src/App.js:503-521 | a field edit moves the day's totals by the difference between the row's new and old contributions |
| Income.AddKeepsTotals | frontend/src/App.js:503-521 | a blank row adds nothing to the day's totals |
| Income.SumRowsConcat | frontend/src/App.js:503-521 | the totals of two lists of rows, one after the other, are the sum of their totals |
| Income.Without | frontend/src/App.js:526 | filtering a date out removes every copy of it and keeps every other date as often as it was selected |
| Income.ToggleFlipsMembership | frontend/src/App.js:523-531 | toggling a day flips whether it is selected, leaves the other days alone, and keeps a selection without repeats |
| Income.ToggleNewDay | frontend/src/App.js:523-550 | selecting a new day adds its totals to the analysis totals; toggling it again restores the selection |
| Income.NormalizeIdempotent | frontend/src/App.js:552-554 | normalizing a normalized name changes nothing |
| Income.EmployeeTotalsAllRows | frontend/src/App.js:556-581 | an empty name gives `null`; when every row of the selected days has the employee's name, the employee's totals are the period's totals |
| Income.EmployeeTotalsPartition | frontend/src/App.js:556-581 | an empty name gives `null`; otherwise the employee's totals plus everybody else's totals over the same days are the period's totals, so each row of a selected day counts for exactly one of the two |
| Income.SumRowsPartition | frontend/src/App.js:566-576 | within one day, the sums of the employee's rows and of the other rows add up to the day's sums |
| Income.OtherRowAddsNothing | frontend/src/App.js:566-568 | a row whose normalised name is another employee's, added to any day, leaves the employee's totals unchanged |
| Income.DayDataCsvLines | frontend/src/App.js:588-612 | read back line by line, a day's export is the header and one line per row in order |
| PayrollHours.MinutesPart | frontend/src/App.js:155 | the minutes part of `decimalToHHmm` is between 0 and 60 inclusive |
| PayrollHours.SixtyMinutes | frontend/src/App.js:153-157 | the minutes part can be 60: 1.999 hours are written "1:60" |
| PayrollHours.DecimalToHHmmMinutes | frontend/src/App.js:153-157 | the `H:mm` text of decimal hours reads back as the hours in minutes, rounded |
| PayrollHours.MinutesOfDecimal | frontend/src/App.js:153-157 | the whole hours times 60 plus the minutes part is the hours in minutes, rounded |
| PayrollHours.TruncRem | frontend/src/App.js:166 | JavaScript's `%` lies strictly between -60 and 60, has the sign of the dividend (`a % b` for a non-negative total, `-((-a) % b)` for a negative one), and differs from the dividend by a multiple of 60 |
| PayrollHours.SumHHmmTimes | frontend/src/App.js:159-168 | the accumulating loop writes exactly the specified sum text ("NaN:NaN" once any hour or minute part does not read as an integer) |
| PayrollHours.FormatMinutesNormalised | frontend/src/App.js:165-167 | a non-negative total is written with minutes below 60 and reads back as itself |
| PayrollHours.NegativeTotalMisread | frontend/src/App.js:165-167 | a negative total is not normalised: -30 minutes are written "-1:-30", which reads back as -90 |
| PayrollHours.TotalOfDecimals | frontend/src/App.js:153-168 | the `H:mm` texts of decimal hours add up to the sum of the hours rounded to the minute |
| PayrollImport.SplitFieldsJoin | frontend/src/App.js:253-256 | the fields of a split line, joined with commas, give the line back |
| PayrollImport.SplitFieldsPlain | frontend/src/App.js:253-256 | a line without double quotes splits on every comma |
| PayrollImport.SplitFieldsQuoted | frontend/src/App.js:253-256 | a line of fields that are each plain or wholly quoted splits back into those fields, even when a quoted field holds commas |
| PayrollImport.QuotedRowFields | frontend/src/App.js:249-256 | a line with every field quoted and trimmed is read back field by field |
| PayrollImport.InsideWordIsFixed | frontend/src/App.js:272-275 | a salaried one-word name matches inside any longer name ("Rigo" skips "Rodrigo") |
| PayrollImport.UndefinedIsFixed | frontend/src/App.js:272-275 | with a one-word salaried name in the list, every name containing "undefined" is skipped |
| PayrollImport.RateFor | frontend/src/App.js:281 | the rate is the job title's rate from the table, 9.99 for an unknown title, and always positive |
| PayrollImport.Pay | frontend/src/App.js:282 | the pay lies within half a cent of hours times rate |
| PayrollImport.PayReadsFixed | frontend/src/App.js:282 | the pay is what `parseFloat` reads from hours times rate written with two decimals |
| PayrollImport.ParseRow | frontend/src/App.js:249-292 | a line gives a shift exactly when it has at least 9 fields, a non-empty name, job title and in-date, and is not a salaried employee's; the shift takes the trimmed name, the title, fields 3 and 4 as in- and out-date, the payable hours read with `\|\| 0`, that title's rate and the rounded pay |
| PayrollImport.Shifts | frontend/src/App.js:247-293 | the shifts read from lines are at most as many as the lines, and each is well formed |
| PayrollImport.ImportCsv | frontend/src/App.js:247-293 | the import loop produces exactly the shifts of the lines after the header, in order |
| PayrollImport.HeaderDropped | frontend/src/App.js:247 | the first line is dropped whatever it holds |
| PayrollImport.BlankLineSkipped | frontend/src/App.js:247 | a blank line adds no shift |
| PayrollImport.ShortLineSkipped | frontend/src/App.js:257 | a line with fewer than nine fields adds no shift |
| PayrollImport.QuotedLineRead | frontend/src/App.js:249-292 | a fully quoted line of an hourly employee becomes the shift its fields describe |
| PayrollImport.AddUpload | frontend/src/App.js:294-303 | the report is appended after the earlier ones, holding the imported shifts and the sum of their pay |
| PayrollImport.TotalPaymentRounded | frontend/src/App.js:301 | a report's total payment is the sum of hours times rate, each shift rounded to the cent |
| PayrollAnalysis.EmployeeGroupsCorrect | frontend/src/App.js:172-188 | grouping by employee gives one group per name, with distinct names, each holding exactly that employee's shifts in order, the first shift's job title, and their hours and pay |
| PayrollAnalysis.PositionGroupsCorrect | frontend/src/App.js:190-204 | grouping by position gives one group per job title, each with that title's hours, pay and set of employees |
| PayrollAnalysis.EmployeeHoursPartition | frontend/src/App.js:172-188 | the employee groups' hours add up to the report's hours |
| PayrollAnalysis.EmployeePayPartition | frontend/src/App.js:172-188 | the employee groups' pay adds up to the report's pay |
| PayrollAnalysis.EmployeeShiftsPartition | frontend/src/App.js:172-188 | the employee groups together hold every shift of the report exactly once |
| PayrollAnalysis.EmployeeCount | frontend/src/App.js:223 | there are as many employee groups as distinct names |
| PayrollAnalysis.NewNameIffNewGroup | frontend/src/App.js:174-176 | a name has a group exactly when it occurs in the report |
| PayrollAnalysis.ChartName | frontend/src/App.js:211 | a name longer than 20 Unicode characters becomes its first 20 and "..."; a shorter one is kept |
| PayrollAnalysis.AnalysisChartsOf | frontend/src/App.js:206-220 | each employee chart row is the label of an employee of the report with the hours and pay of that employee's shifts rounded to the cent, one row per distinct name; each position summary and chart row is a job title of the report with the sums of its shifts (rounded in the chart) and the number of distinct employees who worked it, every job title having its row |
| PayrollAnalysis.GroupByEmployee | frontend/src/App.js:172-188 | the grouping loop produces exactly the specified employee groups |
| PayrollAnalysis.GroupByPosition | frontend/src/App.js:190-204 | the grouping loop produces exactly the specified position groups |
| PayrollAnalysis.PrepareAnalysis | frontend/src/App.js:170-239 | the analysis is the specified one, its employee groups are correct, and the number of unique employees is the number of groups |
| PayrollExport.ConvertToCsv | frontend/src/App.js:309-368 | the export loops write exactly the specified text |
| PayrollExport.WriteGroups | frontend/src/App.js:339-366 | the loop over groups writes each group's shift lines followed by its total line, group after group |
| PayrollExport.GroupsLinesCount | frontend/src/App.js:339-366 | the export has one line per shift plus one total line per employee |
| PayrollExport.PayrollCsvLines | frontend/src/App.js:309-368 | read back line by line, the export is the header followed by each employee's block, 1 + shifts + employees lines in all |
| PayrollExport.EveryShiftExported | frontend/src/App.js:341-353 | every shift of the report has its line in the export |
| PayrollExport.TotalLineReports | frontend/src/App.js:354-365 | each total line reports the hours, the `H:mm` sum and the pay of exactly that employee's shifts |
| PayrollExport.TotalHHmmReadsBack | frontend/src/App.js:355 | for non-negative shifts, the `H:mm` total reads back as the sum of each shift's hours rounded to the minute |
| Calendar.PrevMonth | frontend/src/App.js:412-415 | one month back; the year changes exactly when stepping back from January |
| Calendar.NextMonth | frontend/src/App.js:416-419 | one month forward; the year changes exactly when stepping on from December |
| Calendar.NavigationUndoes | frontend/src/App.js:412-419 | a step back undoes a step forward and the other way round |
| Calendar.DaysInMonth | frontend/src/App.js:902-903 | a month has 28 to 31 days, 29 exactly for February of a leap year |
| Calendar.KnownMonday | frontend/src/App.js:904 | the weekday count is anchored: 1 January 2024 is a Monday |
| Calendar.MonthsLineUp | frontend/src/App.js:901-904 | the next month starts right after this month's last day, in the following column |
| Calendar.DayGrid | frontend/src/App.js:900-920 | the two loops build exactly the specified grid |
| Calendar.GridLayout | frontend/src/App.js:905-920 | the grid holds `firstDayIndex` paddings, then day d at position `firstDayIndex + d - 1`, and nothing more |
| Calendar.GridColumn | frontend/src/App.js:904 | each day sits in the column of its weekday, Monday first |
| Calendar.DateTextReadsBack | frontend/src/App.js:910-912 | a date key splits at its dashes into year, month and day that read back as those numbers |
| Calendar.DateTextInjective | frontend/src/App.js:910-912 | different days have different date keys |
| Calendar.DateTextIso | frontend/src/App.js:910-912 | a four-digit year gives the ten-character `YYYY-MM-DD` key |
| Calendar.FoundIffListed | frontend/src/App.js:915-916 | a day is marked as having a report exactly when its list of reports is not empty |
| Calendar.DayMarks | frontend/src/App.js:913-919 | a day's marks say exactly whether a report, income rows or tips-pool rows are stored under its key, and it lists every report of that day as often as uploaded |
| Timekeeper.Clamp | app/employeeTime.jsx:23 | the result is never below min and, when min <= max, never above max; it equals n inside the range and the nearer bound outside it |
| Timekeeper.DurationHours | app/employeeTime.jsx:25-29 | the hours lie in [0, 1e6]; a span that is not positive gives 0; an open shift counts up to now; a span up to 1e6 hours gives exactly span / 3600000 |
| Timekeeper.UpdateEmployee | app/employeeTime.jsx:88 | each employee with that id becomes that employee with the patch applied, the others stay, and every id is kept |
| Timekeeper.UpdateEmployeeIdempotent | app/employeeTime.jsx:88 | applying the same edit twice is the same as applying it once |
| Timekeeper.RemoveEmployee | app/employeeTime.jsx:89-92 | once confirmed, exactly the employees with that id go and every other employee stays as often as before; unconfirmed, the same employees stay; the time entries are kept either way |
| Timekeeper.AddThenRemove | app/employeeTime.jsx:87-92 | removing an employee just added with a fresh id gives the lists back |
| Timekeeper.ClockIn | app/employeeTime.jsx:95-99 | an employee with an open shift gets "Already clocked in." and nothing changes; otherwise exactly one open entry is put first |
| Timekeeper.ClockInKeepsOneOpen | app/employeeTime.jsx:95-99 | after clocking in the employee has exactly one open shift and nobody has two |
| Timekeeper.CloseFirstOpen | app/employeeTime.jsx:100-106 | with no open shift, "No active shift." and nothing changes; otherwise only the first open entry of that employee gets `end = now` |
| Timekeeper.ClockOut | app/employeeTime.jsx:100-106 | the method that copies the list and assigns one slot has exactly that effect |
| Timekeeper.ClockOutKeepsOneOpen | app/employeeTime.jsx:100-106 | after clocking out the employee has no open shift and nobody has two |
| Timekeeper.ClockInThenOut | app/employeeTime.jsx:95-106 | clocking in and then out puts one closed entry in front of the old list |
| Timekeeper.AddManualEntry | app/employeeTime.jsx:108-111 | an empty start or end gives "Start and End are required." and nothing changes; otherwise the entry `{id, employeeId, start, end, note}` is put first and the rest follow |
| Timekeeper.AddManualKeepsOneOpen | app/employeeTime.jsx:108-111 | adding an entry by hand never gives anyone a second open shift |
| Timekeeper.EditEntry | app/employeeTime.jsx:112 | each entry with that id becomes that entry with the patch applied, the others stay; ids and employees are kept and no closed entry is reopened |
| Timekeeper.RemoveEntry | app/employeeTime.jsx:113 | exactly the entries with that id go; every other entry stays as often as before |
| Timekeeper.EditRemoveKeepOneOpen | app/employeeTime.jsx:112-113 | editing and removing entries never gives anyone a second open shift |
| Timekeeper.ActiveClocks | app/employeeTime.jsx:84 | the active clocks are exactly the open entries, each as often as in the entries |
| Timekeeper.ActiveClocksTicking | app/employeeTime.jsx:84 | an employee appears among the active clocks exactly when they have an open shift |
| Timekeeper.SortNewestFirst | app/employeeTime.jsx:81 | the sort orders by start, newest first, and is a permutation |
| Timekeeper.FilteredEntries | app/employeeTime.jsx:73-82 | the list holds exactly the entries starting between `from` 00:00 and `to` 23:59:59.999 that match the employee filter (or "all"), each as often as in the entries, newest first |
| Timekeeper.FindEmployee | app/employeeTime.jsx:119 | `find` returns the first employee with the id (no earlier one has it); none is found exactly when no employee has it |
| Timekeeper.FirstSeen | app/employeeTime.jsx:125-127 | the summary's key order names each employee of the entries exactly once |
| Timekeeper.Summarize | app/employeeTime.jsx:116-130 | the loop over a mutable map produces, per employee in first-seen order, the sum of the durations, the pay, the name and the rate, and totals that are the sums of the rows |
| Timekeeper.SummaryRowsCover | app/employeeTime.jsx:116-127 | the summary has one row for each employee with filtered entries and no other row |
| Timekeeper.AmountIsRateTimesHours | app/employeeTime.jsx:119-124 | each employee's pay is the rate times the summed hours |
| Timekeeper.SummaryUnknownEmployee | app/employeeTime.jsx:121-124 | an employee missing from the list shows as "?" with rate 0 and pay 0 |
| Timekeeper.ExportCsv | app/employeeTime.jsx:133-147 | the export loop writes exactly the specified text |
| Timekeeper.ExportLineFields | app/employeeTime.jsx:137-144 | when no name, role, printed time or printed number holds a comma, an exported line splits on commas back into its eight fields; the note field has every comma replaced by ";" |
| Timekeeper.LocaleCommaShiftsColumns | app/employeeTime.jsx:20 | with a `toLocaleString` that writes "date, time", a line splits into 10 parts (9 without an end) instead of 8: the End column holds the start's time of day and the later columns shift right |
| Timekeeper.ExportTextLines | app/employeeTime.jsx:133-146 | read back line by line, the export is the header and one line per filtered entry, in order |

## Left out

- Persistence and I/O are not modelled: the backend server and database, the `fetch` load/save effects, the `localStorage` hook, `FileReader`, the Blob/anchor downloads and their file names, `alert`, and all rendering. The confirmation of `removeEmployee` is a parameter. The alerts are returned as values.
- Clocks and random sources are parameters: `Date.now()` ids, `uid()`, the New York upload date, and the current time of the time clock.
- `toLocaleString`, `toISOString` and JavaScript's default number-to-text conversion are parameters (`fmt`, `show`). Their output is only assumed free of commas or line breaks where a lemma says so.
- IEEE-754 floating point is not modelled: money and hours are exact reals, and NaN and Infinity do not arise. `parseFloat` reads only plain decimal text, with no exponent, hexadecimal or "Infinity". `sumHHmmTimes` models NaN as `None`.
- Text.NumberToInt: `Number` is modelled on integer texts only (optional white space and sign, then digits). Decimal, exponent, hexadecimal and "Infinity" texts read as not a number, so `sumHHmmTimes` gives "NaN:NaN" for "1.5:00" where JavaScript would add 90 minutes.
- Text.ToLower: lowers only A-Z and the Latin-1 capitals À-Þ (except ×). Other Unicode case mappings of `toLowerCase` (Greek, Cyrillic, Latin Extended, İ) are not modelled.
- Timekeeper.ExportLineFields: proved only when `toLocaleString` prints no comma. The en-US form "1/2/2024, 10:00:00 AM" does; Timekeeper.LocaleCommaShiftsColumns states what the line then splits into.
- PayrollAnalysis.ChartName: lengths count Unicode characters, while JavaScript's `length` and `substring` count UTF-16 code units, so a name holding characters outside the Basic Multilingual Plane (emoji, rare CJK) is cut at a different place, or kept where the source cuts it; a surrogate pair split by the source is not modelled.
- Text.ParseFloat: reads the longest decimal prefix after white space and a sign, as `parseFloat` does; its other forms are not modelled, for the reason above.
- TipsPool.UpdateTipsPoolRow: requires the row index to be at most the number of rows. An index beyond that makes a sparse JavaScript array, which is not modelled.
- The tips-pool headcount edit arrives already read as a natural number. Negative `parseInt` counts (`slice(0, -k)`) are not modelled. The column index of `employeeName_k`/`employeeHours_k` arrives already parsed.
- The in-place mutation of a column shared with the previous state (frontend/src/App.js:687 and 693) is modelled as a value update, so aliasing with the old state is not captured.
- Income.UpdateIncomeRow and Income.ToggleFivePercentExclusion: both require an existing row index (the screen only passes rendered indices). An index past the end, which the source would fill from `undefined`, is not modelled.
- Object key order: JavaScript lists integer-like keys of `employeeData`, `positionData` and `grouped` before the others. The model keeps first-appearance order for all keys. Keys inherited from `Object.prototype` (such as a job title "toString" looked up in `hourlyRates`) are not modelled.
- Calendar.PrevMonth and Calendar.NextMonth: the two React state updates of one click are modelled as one step. Several clicks batched before a re-render are not modelled.
- The calendar uses the proleptic Gregorian calendar with no time zone. Years 0 to 99 are shifted to 1900 to 1999, as `new Date(y, m, d)` does.
- The time-clock range filter takes the day boundaries of `from` and `to` as millisecond parameters. Parsing the date inputs at local midnight is not modelled.
- AddManualEntry: an empty start or end input is `None`. Invalid date text is not modelled, because timestamps are integers.
- Timekeeper.SortNewestFirst: entries with equal starts may come out in any order. The stability of JavaScript's sort is not stated.
- PayrollExport.TotalHHmmReadsBack: proved only for non-negative hours, because negative totals are written un-normalised (PayrollHours.NegativeTotalMisread).
- The CSV readback lemmas (TipsPool.TipsPoolCsvLines, Income.DayDataCsvLines, PayrollExport.PayrollCsvLines, Timekeeper.ExportTextLines) assume that no name, note or printed value holds a line break. The source does not escape line breaks. It also does not escape double quotes inside quoted fields, and the import does not unescape doubled quotes.
- The employee and position datalists, the unused note search `q`, and the `seedEmployees` defaults hold no logic and are not modelled.
