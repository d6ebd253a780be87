/// The calendar of the payroll screen: stepping one month back or forward, and
/// the month grid, which pads the first week so that weeks start on Monday and
/// marks each day that holds an uploaded report, income rows or a tips pool.
module Calendar {
  import opened Text
  import opened PayrollImport
  import Income
  import TipsPool

  /** A month index as JavaScript's `Date` counts them: 0 is January. */
  type Month = m: int | 0 <= m < 12

  datatype YearMonth = YearMonth(year: int, month: Month)

  /** Months counted from January of year 0, so that one step is one unit. */
  function MonthNumber(ym: YearMonth): int {
    ym.year * 12 + ym.month
  }

  // ---------------------------------------------------------------- navigation

  /** `goToPrevMonth`: January steps back to December of the year before. */
  function PrevMonth(ym: YearMonth): (r: YearMonth)
    ensures MonthNumber(r) == MonthNumber(ym) - 1
    ensures r.year == ym.year <==> ym.month != 0
  {
    if ym.month == 0 then YearMonth(ym.year - 1, 11) else YearMonth(ym.year, ym.month - 1)
  }

  /** `goToNextMonth`: December steps on to January of the year after. */
  function NextMonth(ym: YearMonth): (r: YearMonth)
    ensures MonthNumber(r) == MonthNumber(ym) + 1
    ensures r.year == ym.year <==> ym.month != 11
  {
    if ym.month == 11 then YearMonth(ym.year + 1, 0) else YearMonth(ym.year, ym.month + 1)
  }

  /** A step back undoes a step forward and the other way round. */
  lemma NavigationUndoes(ym: YearMonth)
    ensures PrevMonth(NextMonth(ym)) == ym
    ensures NextMonth(PrevMonth(ym)) == ym
  {
  }

  // ---------------------------------------------------------------- Gregorian calendar

  predicate Leap(y: int) {
    y % 4 == 0 && (y % 100 != 0 || y % 400 == 0)
  }

  /** The day of month of `new Date(y, m + 1, 0)`: the length of month `m`. */
  function DaysInMonth(y: int, m: Month): (n: int)
    ensures 28 <= n <= 31
    ensures n == 29 <==> m == 1 && Leap(y)
  {
    if m == 1 then (if Leap(y) then 29 else 28)
    else if m == 3 || m == 5 || m == 8 || m == 10 then 30
    else 31
  }

  /** Days in the months of year `y` before month `m` (0 to 12). */
  function DaysBeforeMonth(y: int, m: int): int
    requires 0 <= m <= 12
  {
    [0, 31, 59, 90, 120, 151, 181, 212, 243, 273, 304, 334, 365][m] + (if m >= 2 && Leap(y) then 1 else 0)
  }

  /** Days from 1 January of year 1 to 1 January of year `y`, counting the
      Gregorian leap years (years before 1 give negative counts). */
  function DaysBeforeYear(y: int): int {
    var p := y - 1;
    365 * p + p / 4 - p / 100 + p / 400
  }

  /** Days from 1 January of year 1 to the given date. */
  function DayNumber(y: int, m: Month, d: int): int {
    DaysBeforeYear(y) + DaysBeforeMonth(y, m) + d - 1
  }

  /** `getDay()`: 0 for Sunday to 6 for Saturday; 1 January of year 1 was a Monday. */
  function WeekDay(y: int, m: Month, d: int): (w: int)
    ensures 0 <= w < 7
  {
    (DayNumber(y, m, d) + 1) % 7
  }

  /** The column of a day in a week that starts on Monday (0 for Monday). */
  function MondayColumn(w: int): (c: int)
    requires 0 <= w < 7
    ensures 0 <= c < 7
    ensures (c + 1) % 7 == w
  {
    if w == 0 then 6 else w - 1
  }

  /** The month lengths add up to the year's length. */
  lemma MonthsFillYear(y: int, m: Month)
    ensures DaysBeforeMonth(y, m + 1) == DaysBeforeMonth(y, m) + DaysInMonth(y, m)
    ensures DaysBeforeMonth(y, 12) == if Leap(y) then 366 else 365
  {
  }

  /** A year has 366 days when it is a leap year and 365 otherwise. */
  lemma YearLength(y: int)
    ensures DaysBeforeYear(y + 1) == DaysBeforeYear(y) + if Leap(y) then 366 else 365
  {
    var p := y - 1;
    StepDiv(y);
    assert y % 400 == 0 ==> y % 100 == 0;
    assert y % 100 == 0 ==> y % 4 == 0;
  }

  lemma StepDiv(y: int)
    ensures y / 4 - (y - 1) / 4 == if y % 4 == 0 then 1 else 0
    ensures y / 100 - (y - 1) / 100 == if y % 100 == 0 then 1 else 0
    ensures y / 400 - (y - 1) / 400 == if y % 400 == 0 then 1 else 0
  {
  }

  /** The first day of the next month falls right after the last day of this
      one, so its column continues this month's last row. */
  lemma MonthsLineUp(ym: YearMonth)
    ensures DayNumber(NextMonth(ym).year, NextMonth(ym).month, 1)
         == DayNumber(ym.year, ym.month, 1) + DaysInMonth(ym.year, ym.month)
    ensures MondayColumn(WeekDay(NextMonth(ym).year, NextMonth(ym).month, 1))
         == (MondayColumn(WeekDay(ym.year, ym.month, 1)) + DaysInMonth(ym.year, ym.month)) % 7
  {
    var next := NextMonth(ym);
    var n := DayNumber(ym.year, ym.month, 1);
    var len := DaysInMonth(ym.year, ym.month);
    MonthsFillYear(ym.year, ym.month);
    if ym.month == 11 {
      YearLength(ym.year);
    }
    assert DayNumber(next.year, next.month, 1) == n + len;
    ColumnOfDay(ym.year, ym.month, 1);
    ColumnOfDay(next.year, next.month, 1);
    ModShift(n, len);
  }

  lemma ModShift(a: int, b: int)
    ensures (a + b) % 7 == (a % 7 + b) % 7
  {
  }

  /** The Monday-first column of a day is its day number modulo 7. */
  lemma ColumnOfDay(y: int, m: Month, d: int)
    ensures MondayColumn(WeekDay(y, m, d)) == DayNumber(y, m, d) % 7
  {
    MondayOfNext(DayNumber(y, m, d));
  }

  lemma MondayOfNext(n: int)
    ensures MondayColumn((n + 1) % 7) == n % 7
  {
  }

  /** 1 January 2024 was a Monday. */
  lemma KnownMonday()
    ensures WeekDay(2024, 0, 1) == 1
  {
  }

  // ---------------------------------------------------------------- date keys

  /** `(n < 10 ? '0' : '') + n`. */
  function Two(n: nat): (s: string)
    ensures AllDigits(s) && DigitsValue(s) == n
    ensures 1 <= n < 100 ==> |s| == 2
  {
    if n < 10 then
      DigitsValueLeadingZeros("0", NatToString(n));
      "0" + NatToString(n)
    else
      var s := NatToString(n);
      assert n >= 100 || |s| == 2 by {
        if n < 100 && |s| != 2 {
          TwoDigits(s);
        }
      }
      s
  }

  lemma TwoDigits(s: string)
    requires AllDigits(s) && |s| > 0 && s[0] != '0'
    ensures |s| == 1 ==> DigitsValue(s) < 10
    ensures |s| >= 3 ==> DigitsValue(s) >= 100
  {
    if |s| >= 3 {
      LeadingDigitValue(s);
    }
  }

  /** A digit string of length k with a leading non-zero digit is at least 10^(k-1). */
  lemma {:induction false} LeadingDigitValue(s: string)
    requires AllDigits(s) && |s| > 0 && s[0] != '0'
    ensures DigitsValue(s) >= Pow10(|s| - 1)
  {
    if |s| > 1 {
      LeadingDigitValue(s[..|s| - 1]);
    }
  }

  /** The `YYYY-MM-DD` key under which a day's reports, income and tips are stored. */
  function DateText(year: int, m: Month, day: nat): string {
    IntToString(year) + "-" + Two(m + 1) + "-" + Two(day)
  }

  /** A key of a year from 0 on splits at its dashes into year, month and day,
      which read back as the numbers it was built from. */
  lemma DateTextReadsBack(year: nat, m: Month, day: nat)
    ensures var parts := SplitOn(DateText(year, m, day), '-');
      && |parts| == 3
      && AllDigits(parts[0]) && DigitsValue(parts[0]) == year
      && AllDigits(parts[1]) && DigitsValue(parts[1]) == m + 1
      && AllDigits(parts[2]) && DigitsValue(parts[2]) == day
  {
    var parts := [IntToString(year), Two(m + 1), Two(day)];
    assert Join(parts, "-") == DateText(year, m, day) by {
      assert Join(parts[2..], "-") == Two(day);
    }
    forall k | 0 <= k < 3
      ensures '-' !in parts[k]
    {
      assert AllDigits(parts[k]);
    }
    SplitJoin(parts, '-');
  }

  /** Different days of years from 0 on have different keys. */
  lemma DateTextInjective(y1: nat, m1: Month, d1: nat, y2: nat, m2: Month, d2: nat)
    requires DateText(y1, m1, d1) == DateText(y2, m2, d2)
    ensures y1 == y2 && m1 == m2 && d1 == d2
  {
    DateTextReadsBack(y1, m1, d1);
    DateTextReadsBack(y2, m2, d2);
  }

  /** A four-digit year gives the ten-character ISO 8601 calendar date. */
  lemma DateTextIso(year: nat, m: Month, day: nat)
    requires 1000 <= year <= 9999 && 1 <= day <= 31
    ensures |DateText(year, m, day)| == 10
  {
    var s := NatToString(year);
    assert |s| == 4 by {
      if |s| < 4 {
        DigitsBelow(s);
        Pow10Grows(|s|, 3);
      } else if |s| > 4 {
        LeadingDigitValue(s);
        Pow10Grows(4, |s| - 1);
      }
    }
  }

  lemma {:induction false} Pow10Grows(a: nat, b: nat)
    requires a <= b
    ensures Pow10(a) <= Pow10(b)
    decreases b
  {
    if a < b {
      Pow10Grows(a, b - 1);
    }
  }

  /** A digit string of length k is below 10^k. */
  lemma {:induction false} DigitsBelow(s: string)
    requires AllDigits(s)
    ensures DigitsValue(s) < Pow10(|s|)
  {
    if s != [] {
      DigitsBelow(s[..|s| - 1]);
    }
  }

  // ---------------------------------------------------------------- the month grid

  /** A grid cell: padding before the first day, or a day with its markers. */
  datatype Cell =
    | Padding
    | Day(day: nat, hasCsv: bool, csvs: seq<Upload>, hasIncomeData: bool, hasTipsPoolData: bool)

  /** `uploadedCSVs.find(csv => csv.uploadDate === date)`. */
  function FindUpload(uploads: seq<Upload>, date: string): (r: Option<Upload>)
    ensures r.Some? <==> exists k :: 0 <= k < |uploads| && uploads[k].uploadDate == date
    ensures r.Some? ==> r.value in uploads && r.value.uploadDate == date
  {
    if uploads == [] then None
    else if uploads[0].uploadDate == date then Some(uploads[0])
    else
      var r := FindUpload(uploads[1..], date);
      assert forall k :: 1 <= k < |uploads| ==> uploads[k] == uploads[1..][k - 1];
      r
  }

  /** `uploadedCSVs.filter(csv => csv.uploadDate === date)`: the day's reports, each
      as often as uploaded and in upload order (`Text.Filter`). */
  function UploadsOn(uploads: seq<Upload>, date: string): (r: seq<Upload>)
    ensures forall u :: u in r <==> u in uploads && u.uploadDate == date
    ensures forall u :: multiset(r)[u] == if u.uploadDate == date then multiset(uploads)[u] else 0
    ensures |r| <= |uploads|
  {
    Text.Filter(uploads, (u: Upload) => u.uploadDate == date)
  }

  /** The day was marked as having a report exactly when it lists one. */
  lemma FoundIffListed(uploads: seq<Upload>, date: string)
    ensures FindUpload(uploads, date).Some? <==> UploadsOn(uploads, date) != []
  {
    if FindUpload(uploads, date).Some? {
      var u := FindUpload(uploads, date).value;
      assert u in UploadsOn(uploads, date);
    }
  }

  /** `!!(incomeData[date] && incomeData[date].length > 0)`. */
  predicate HasIncome(income: Income.Store, date: string) {
    date in income && |income[date]| > 0
  }

  /** `!!(tipsPoolData[date] && tipsPoolData[date].rows && tipsPoolData[date].rows.length > 0)`. */
  predicate HasTipsPool(tips: TipsPool.Store, date: string) {
    date in tips && |tips[date].rows| > 0
  }

  /** The cell of day `day` of the shown month. */
  function DayCell(ym: YearMonth, day: nat, uploads: seq<Upload>, income: Income.Store, tips: TipsPool.Store): Cell {
    var date := DateText(ym.year, ym.month, day);
    Day(day, FindUpload(uploads, date).Some?, UploadsOn(uploads, date), HasIncome(income, date), HasTipsPool(tips, date))
  }

  /** `new Date(y, m, d)` reads the years 0 to 99 as 1900 to 1999. */
  function DateYear(y: int): int {
    if 0 <= y <= 99 then 1900 + y else y
  }

  /** `firstDayIndex`: the Monday-first column of the month's first day. */
  function FirstDayIndex(ym: YearMonth): (c: int)
    ensures 0 <= c < 7
  {
    MondayColumn(WeekDay(DateYear(ym.year), ym.month, 1))
  }

  /** `totalDays`: the length of the shown month. */
  function TotalDays(ym: YearMonth): int {
    DaysInMonth(DateYear(ym.year), ym.month)
  }

  /** The cells of the days 1 to `n`, `cell(d)` being the cell of day `d`. */
  function Cells(n: nat, cell: nat -> Cell): (cells: seq<Cell>)
    ensures |cells| == n
    ensures forall k :: 0 <= k < n ==> cells[k] == cell(k + 1)
  {
    if n == 0 then [] else Cells(n - 1, cell) + [cell(n)]
  }

  function CellOf(ym: YearMonth, uploads: seq<Upload>, income: Income.Store, tips: TipsPool.Store): nat -> Cell {
    (day: nat) => DayCell(ym, day, uploads, income, tips)
  }

  /** The grid the two loops build: `FirstDayIndex` paddings, then one cell per day. */
  function MonthGrid(ym: YearMonth, uploads: seq<Upload>, income: Income.Store, tips: TipsPool.Store): seq<Cell> {
    seq(FirstDayIndex(ym), _ => Padding) + Cells(TotalDays(ym), CellOf(ym, uploads, income, tips))
  }

  /** The day grid of `App.js`: pad the first week, then push one cell per day. */
  method DayGrid(ym: YearMonth, uploads: seq<Upload>, income: Income.Store, tips: TipsPool.Store)
    returns (days: seq<Cell>)
    ensures days == MonthGrid(ym, uploads, income, tips)
  {
    var firstDayIndex := FirstDayIndex(ym);
    var totalDays := TotalDays(ym);
    days := [];
    var i := 0;
    while i < firstDayIndex
      invariant 0 <= i <= firstDayIndex
      invariant days == seq(i, _ => Padding)
    {
      days := days + [Padding];
      i := i + 1;
    }
    ghost var pad := days;
    ghost var f := CellOf(ym, uploads, income, tips);
    var day := 1;
    while day <= totalDays
      invariant 1 <= day <= totalDays + 1
      invariant days == pad + Cells(day - 1, f)
    {
      var cell := DayCell(ym, day, uploads, income, tips);
      assert cell == f(day);
      AppendAssoc(pad, Cells(day - 1, f), [cell]);
      days := days + [cell];
      day := day + 1;
    }
  }

  /** The grid pads the first week, then holds the days 1 to `TotalDays` in
      order. */
  lemma GridLayout(ym: YearMonth, uploads: seq<Upload>, income: Income.Store, tips: TipsPool.Store, day: int)
    requires 1 <= day <= TotalDays(ym)
    ensures var grid := MonthGrid(ym, uploads, income, tips);
      && |grid| == FirstDayIndex(ym) + TotalDays(ym)
      && (forall k :: 0 <= k < FirstDayIndex(ym) ==> grid[k] == Padding)
      && grid[FirstDayIndex(ym) + day - 1] == DayCell(ym, day, uploads, income, tips)
  {
    var f := CellOf(ym, uploads, income, tips);
    var cell := DayCell(ym, day, uploads, income, tips);
    assert f(day) == cell;
    PaddedCells(FirstDayIndex(ym), TotalDays(ym), f, day);
    assert MonthGrid(ym, uploads, income, tips) == seq(FirstDayIndex(ym), _ => Padding) + Cells(TotalDays(ym), f);
  }

  /** `pad` paddings followed by the cells of the days 1 to `n`. */
  lemma PaddedCells(pad: nat, n: nat, f: nat -> Cell, day: int)
    requires 1 <= day <= n
    ensures var grid := seq(pad, _ => Padding) + Cells(n, f);
      && |grid| == pad + n
      && (forall k :: 0 <= k < pad ==> grid[k] == Padding)
      && grid[pad + day - 1] == f(day)
  {
    var pads, cells := seq(pad, _ => Padding), Cells(n, f);
    assert cells[day - 1] == f(day);
    assert (pads + cells)[pad + day - 1] == cells[day - 1];
  }

  /** Each day of the grid sits in the column of its weekday, Monday first. */
  lemma GridColumn(ym: YearMonth, day: int)
    ensures (FirstDayIndex(ym) + day - 1) % 7 == MondayColumn(WeekDay(DateYear(ym.year), ym.month, day))
  {
    DayColumn(DateYear(ym.year), ym.month, day);
  }

  /** Day `day` lies `day - 1` columns after the first day of its month. */
  lemma DayColumn(y: int, m: Month, day: int)
    ensures (MondayColumn(WeekDay(y, m, 1)) + day - 1) % 7 == MondayColumn(WeekDay(y, m, day))
  {
    var n := DayNumber(y, m, 1);
    ColumnOfDay(y, m, 1);
    ColumnOfDay(y, m, day);
    assert DayNumber(y, m, day) == n + (day - 1);
    ModShift(n, day - 1);
  }

  /** A day is marked as having a report, income or a tips pool exactly when
      one is stored under its key, and it lists exactly the reports of that day. */
  lemma DayMarks(ym: YearMonth, uploads: seq<Upload>, income: Income.Store, tips: TipsPool.Store, day: nat)
    ensures var cell, date := DayCell(ym, day, uploads, income, tips), DateText(ym.year, ym.month, day);
      && cell.Day? && cell.day == day
      && (cell.hasCsv <==> exists k :: 0 <= k < |uploads| && uploads[k].uploadDate == date)
      && (cell.hasCsv <==> cell.csvs != [])
      && (forall u :: u in cell.csvs <==> u in uploads && u.uploadDate == date)
      && (forall u :: multiset(cell.csvs)[u] == if u.uploadDate == date then multiset(uploads)[u] else 0)
      && (cell.hasIncomeData <==> date in income && income[date] != [])
      && (cell.hasTipsPoolData <==> date in tips && tips[date].rows != [])
  {
    FoundIffListed(uploads, DateText(ym.year, ym.month, day));
  }
}
