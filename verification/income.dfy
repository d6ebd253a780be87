/// Daily income: for each date a list of rows, one per employee shift, holding
/// the net sales, tips and gratuity as typed, and three amounts derived from
/// them: 5% of the net sales (unless the employee is excluded from it), tips
/// plus gratuity, and that sum less the 5%.
module Income {
  import opened Text

  datatype IncomeRow = IncomeRow(
    id: int,
    name: string,
    position: string,
    netSales: string,
    tips: string,
    gratuity: string,
    fivePercent: real,
    tPlusG: real,
    tPlusGMinusFive: real,
    excludeFivePercent: bool)

  type Store = map<string, seq<IncomeRow>>

  /** The fields `updateIncomeRow` is called with; any other field name only
      triggers the recomputation. */
  datatype Field = Name | Position | NetSales | Tips | Gratuity | OtherField

  /** `prev[date] || []`. */
  function RowsOf(store: Store, date: string): seq<IncomeRow> {
    if date in store then store[date] else []
  }

  /** The 5% commission on the typed net sales, or nothing for an excluded row. */
  function FivePercentOf(netSales: string, excluded: bool): real {
    if excluded then 0.0 else NumberOr0(netSales) * 0.05
  }

  /** The three derived amounts recomputed from the typed amounts and the flag. */
  function Recompute(row: IncomeRow): IncomeRow {
    var five := FivePercentOf(row.netSales, row.excludeFivePercent);
    var tg := NumberOr0(row.tips) + NumberOr0(row.gratuity);
    row.(fivePercent := five, tPlusG := tg, tPlusGMinusFive := tg - five)
  }

  /** The derived amounts agree with the typed amounts and the flag. */
  predicate Consistent(row: IncomeRow) {
    && row.fivePercent == FivePercentOf(row.netSales, row.excludeFivePercent)
    && row.tPlusG == NumberOr0(row.tips) + NumberOr0(row.gratuity)
    && row.tPlusGMinusFive == row.tPlusG - row.fivePercent
  }

  /** `addIncomeRow`: a blank row with id `now` goes last. */
  function AddIncomeRow(store: Store, date: string, now: int): Store {
    store[date := RowsOf(store, date) + [IncomeRow(now, "", "", "", "", "", 0.0, 0.0, 0.0, false)]]
  }

  function SetField(row: IncomeRow, field: Field, value: string): IncomeRow {
    match field
    case Name => row.(name := value)
    case Position => row.(position := value)
    case NetSales => row.(netSales := value)
    case Tips => row.(tips := value)
    case Gratuity => row.(gratuity := value)
    case OtherField => row
  }

  /** `updateIncomeRow`: set one field of the row at `rowIndex`, then recompute its
      derived amounts. */
  function UpdateIncomeRow(store: Store, date: string, rowIndex: nat, field: Field, value: string): Store
    requires rowIndex < |RowsOf(store, date)|
  {
    var rows := RowsOf(store, date);
    store[date := rows[rowIndex := Recompute(SetField(rows[rowIndex], field, value))]]
  }

  /** `deleteIncomeRow`: keep every row whose index differs from `rowIndex`. */
  function DeleteIncomeRow(store: Store, date: string, rowIndex: int): Store {
    var rows := RowsOf(store, date);
    store[date := if 0 <= rowIndex < |rows| then rows[..rowIndex] + rows[rowIndex + 1..] else rows]
  }

  /** `toggleFivePercentExclusion`: flip the flag of one row and recompute it. */
  function ToggleFivePercentExclusion(store: Store, date: string, rowIndex: nat): Store
    requires rowIndex < |RowsOf(store, date)|
  {
    var rows := RowsOf(store, date);
    var row := rows[rowIndex];
    store[date := rows[rowIndex := Recompute(row.(excludeFivePercent := !row.excludeFivePercent))]]
  }

  // ---------------------------------------------------------------- totals

  datatype Totals = Totals(netSales: real, tips: real, gratuity: real, fivePercent: real, tPlusG: real, tPlusGMinusFive: real)

  const Zero := Totals(0.0, 0.0, 0.0, 0.0, 0.0, 0.0)

  function Plus(a: Totals, b: Totals): Totals {
    Totals(a.netSales + b.netSales, a.tips + b.tips, a.gratuity + b.gratuity,
           a.fivePercent + b.fivePercent, a.tPlusG + b.tPlusG, a.tPlusGMinusFive + b.tPlusGMinusFive)
  }

  /** One row's contribution: the typed amounts read as numbers, the derived ones as stored. */
  function RowTotals(row: IncomeRow): Totals {
    Totals(NumberOr0(row.netSales), NumberOr0(row.tips), NumberOr0(row.gratuity),
           row.fivePercent, row.tPlusG, row.tPlusGMinusFive)
  }

  function SumRows(rows: seq<IncomeRow>): Totals {
    if rows == [] then Zero else Plus(SumRows(rows[..|rows| - 1]), RowTotals(rows[|rows| - 1]))
  }

  /** `calculateDateTotals`. */
  function DateTotals(store: Store, date: string): Totals {
    SumRows(RowsOf(store, date))
  }

  /** `calculateCustomAnalysisTotals`: the date totals of every selected day, a day
      selected twice counting twice. */
  function CustomAnalysisTotals(store: Store, days: seq<string>): Totals {
    if days == [] then Zero else Plus(CustomAnalysisTotals(store, days[..|days| - 1]), DateTotals(store, days[|days| - 1]))
  }

  /** `toggleDaySelection`: remove every copy of the date, or append it. */
  function ToggleDaySelection(days: seq<string>, date: string): seq<string> {
    if date in days then Without(days, date) else days + [date]
  }

  /** `days.filter(d => d !== date)`: every other day stays, as often as it was
      selected and in its order (`Filter`). */
  function Without(days: seq<string>, date: string): (r: seq<string>)
    ensures date !in r
    ensures forall d :: d != date ==> (d in r <==> d in days)
    ensures forall d :: d != date ==> multiset(r)[d] == multiset(days)[d]
  {
    Filter(days, (d: string) => d != date)
  }

  /** `normalizeName`: trimmed and lower-cased. */
  function NormalizeName(name: string): string {
    ToLower(Trim(name))
  }

  /** The rows of one day whose normalized name is `who`. */
  function RowsNamed(rows: seq<IncomeRow>, who: string): seq<IncomeRow> {
    Filter(rows, Named(who))
  }

  /** The rows of one day that belong to somebody else. */
  function RowsNotNamed(rows: seq<IncomeRow>, who: string): seq<IncomeRow> {
    Filter(rows, NotNamed(who))
  }

  function Named(who: string): IncomeRow -> bool {
    (r: IncomeRow) => NormalizeName(r.name) == who
  }

  function NotNamed(who: string): IncomeRow -> bool {
    (r: IncomeRow) => NormalizeName(r.name) != who
  }

  /** `calculateEmployeePeriodTotals`: `None` (the source's `null`) for an empty name. */
  function EmployeePeriodTotals(store: Store, days: seq<string>, who: string): Option<Totals> {
    if who == "" then None else Some(EmployeeTotalsOver(store, days, who))
  }

  function EmployeeTotalsOver(store: Store, days: seq<string>, who: string): Totals {
    if days == [] then Zero
    else Plus(EmployeeTotalsOver(store, days[..|days| - 1], who), SumRows(RowsNamed(RowsOf(store, days[|days| - 1]), who)))
  }

  // ---------------------------------------------------------------- row edits

  /** A field edit sets that field of that row, keeps its derived amounts in line,
      and changes no other row and no other date. */
  lemma UpdateSetsField(store: Store, date: string, rowIndex: nat, field: Field, value: string)
    requires rowIndex < |RowsOf(store, date)|
    ensures var s := UpdateIncomeRow(store, date, rowIndex, field, value);
      var rows, rows' := RowsOf(store, date), s[date];
      var r, r' := rows[rowIndex], rows'[rowIndex];
      && |rows'| == |rows|
      && (forall i :: 0 <= i < |rows| && i != rowIndex ==> rows'[i] == rows[i])
      && (forall d :: d != date ==> (d in s <==> d in store) && (d in store ==> s[d] == store[d]))
      && Consistent(r')
      && r'.id == r.id && r'.excludeFivePercent == r.excludeFivePercent
      && r'.name == (if field == Name then value else r.name)
      && r'.position == (if field == Position then value else r.position)
      && r'.netSales == (if field == NetSales then value else r.netSales)
      && r'.tips == (if field == Tips then value else r.tips)
      && r'.gratuity == (if field == Gratuity then value else r.gratuity)
  {
  }

  /** Toggling the exclusion flips the flag of that row only and keeps its derived
      amounts in line: no 5% when excluded, `netSales * 0.05` otherwise. */
  lemma ToggleFlips(store: Store, date: string, rowIndex: nat)
    requires rowIndex < |RowsOf(store, date)|
    ensures var s := ToggleFivePercentExclusion(store, date, rowIndex);
      var rows, rows' := RowsOf(store, date), s[date];
      && |rows'| == |rows|
      && (forall i :: 0 <= i < |rows| && i != rowIndex ==> rows'[i] == rows[i])
      && (forall d :: d != date ==> (d in s <==> d in store) && (d in store ==> s[d] == store[d]))
      && rows'[rowIndex].excludeFivePercent == !rows[rowIndex].excludeFivePercent
      && Consistent(rows'[rowIndex])
      && rows'[rowIndex].fivePercent == (if rows[rowIndex].excludeFivePercent then NumberOr0(rows[rowIndex].netSales) * 0.05 else 0.0)
      && rows'[rowIndex] == Recompute(rows[rowIndex].(excludeFivePercent := !rows[rowIndex].excludeFivePercent))
  {
  }

  /** Toggling twice gives back the store, when the row was in line to start with. */
  lemma ToggleTwice(store: Store, date: string, rowIndex: nat)
    requires date in store && rowIndex < |store[date]|
    requires Consistent(store[date][rowIndex])
    ensures rowIndex < |RowsOf(ToggleFivePercentExclusion(store, date, rowIndex), date)|
    ensures ToggleFivePercentExclusion(ToggleFivePercentExclusion(store, date, rowIndex), date, rowIndex) == store
  {
    var row := store[date][rowIndex];
    var once := ToggleFivePercentExclusion(store, date, rowIndex);
    var twice := ToggleFivePercentExclusion(once, date, rowIndex);
    var flipped := Recompute(row.(excludeFivePercent := !row.excludeFivePercent));
    assert once[date] == store[date][rowIndex := flipped];
    FlipTwice(row);
    assert twice[date] == once[date][rowIndex := row];
    assert twice[date] == store[date];
  }

  /** Flipping the flag twice, recomputing each time, gives a consistent row back. */
  lemma FlipTwice(row: IncomeRow)
    requires Consistent(row)
    ensures var flipped := Recompute(row.(excludeFivePercent := !row.excludeFivePercent));
      Recompute(flipped.(excludeFivePercent := !flipped.excludeFivePercent)) == row
  {
  }

  /** A new row is blank, in line, and goes last; no other date changes. */
  lemma AddAppends(store: Store, date: string, now: int)
    ensures var rows, rows' := RowsOf(store, date), AddIncomeRow(store, date, now)[date];
      && |rows'| == |rows| + 1 && rows'[..|rows|] == rows
      && rows'[|rows|] == IncomeRow(now, "", "", "", "", "", 0.0, 0.0, 0.0, false)
      && Consistent(rows'[|rows|])
    ensures var s := AddIncomeRow(store, date, now);
      forall d :: d != date ==> (d in s <==> d in store) && (d in store ==> s[d] == store[d])
  {
    assert NumberOr0("") == 0.0;
  }

  /** Deleting at a valid index removes exactly that row; any other index removes nothing. */
  lemma DeleteRemoves(store: Store, date: string, k: int)
    ensures var rows, rows' := RowsOf(store, date), DeleteIncomeRow(store, date, k)[date];
      && (0 <= k < |rows| ==>
           |rows'| == |rows| - 1
           && (forall i :: 0 <= i < k ==> rows'[i] == rows[i])
           && (forall i :: k <= i < |rows'| ==> rows'[i] == rows[i + 1]))
      && (!(0 <= k < |rows|) ==> rows' == rows)
    ensures var s := DeleteIncomeRow(store, date, k);
      forall d :: d != date ==> (d in s <==> d in store) && (d in store ==> s[d] == store[d])
  {
  }

  // ---------------------------------------------------------------- totals

  /** Summed rows that are in line are in line as totals: T+G is tips plus gratuity
      and T+G-5% is T+G less the 5%; with nobody excluded the 5% is 5% of the net sales. */
  lemma {:induction false} TotalsConsistent(rows: seq<IncomeRow>)
    requires forall i :: 0 <= i < |rows| ==> Consistent(rows[i])
    ensures SumRows(rows).tPlusG == SumRows(rows).tips + SumRows(rows).gratuity
    ensures SumRows(rows).tPlusGMinusFive == SumRows(rows).tPlusG - SumRows(rows).fivePercent
    ensures (forall i :: 0 <= i < |rows| ==> !rows[i].excludeFivePercent) ==>
      SumRows(rows).fivePercent == SumRows(rows).netSales * 0.05
  {
    if rows != [] {
      TotalsConsistent(rows[..|rows| - 1]);
    }
  }

  lemma {:induction false} SumRowsConcat(a: seq<IncomeRow>, b: seq<IncomeRow>)
    ensures SumRows(a + b) == Plus(SumRows(a), SumRows(b))
    decreases |b|
  {
    if b == [] {
      assert a + b == a;
    } else {
      var front, last := b[..|b| - 1], b[|b| - 1];
      assert (a + b)[..|a + b| - 1] == a + front;
      assert (a + b)[|a + b| - 1] == last;
      SumRowsConcat(a, front);
      PlusAssoc(SumRows(a), SumRows(front), RowTotals(last));
    }
  }

  lemma PlusAssoc(x: Totals, y: Totals, z: Totals)
    ensures Plus(Plus(x, y), z) == Plus(x, Plus(y, z))
  {
  }

  /** A field edit moves the day's totals by the difference between the
      row's new and old contributions. */
  lemma UpdateMovesTotals(store: Store, date: string, rowIndex: nat, field: Field, value: string)
    requires rowIndex < |RowsOf(store, date)|
    ensures var rows := RowsOf(store, date);
      var r' := UpdateIncomeRow(store, date, rowIndex, field, value)[date][rowIndex];
      Plus(DateTotals(UpdateIncomeRow(store, date, rowIndex, field, value), date), RowTotals(rows[rowIndex]))
      == Plus(DateTotals(store, date), RowTotals(r'))
  {
    var rows := RowsOf(store, date);
    var r' := UpdateIncomeRow(store, date, rowIndex, field, value)[date][rowIndex];
    SumRowsReplace(rows, rowIndex, r');
  }

  lemma SumRowsReplace(rows: seq<IncomeRow>, i: nat, r: IncomeRow)
    requires i < |rows|
    ensures Plus(SumRows(rows[i := r]), RowTotals(rows[i])) == Plus(SumRows(rows), RowTotals(r))
  {
    var a, b := rows[..i], rows[i + 1..];
    assert rows == a + [rows[i]] + b;
    assert rows[i := r] == a + [r] + b;
    SumRowsSplit(a, rows[i], b);
    SumRowsSplit(a, r, b);
    PlusSwap(SumRows(a), RowTotals(rows[i]), SumRows(b), RowTotals(r));
  }

  lemma SumRowsSplit(a: seq<IncomeRow>, x: IncomeRow, b: seq<IncomeRow>)
    ensures SumRows(a + [x] + b) == Plus(Plus(SumRows(a), RowTotals(x)), SumRows(b))
  {
    SumRowsConcat(a + [x], b);
    assert (a + [x])[..|a + [x]| - 1] == a;
  }

  lemma PlusSwap(a: Totals, x: Totals, b: Totals, y: Totals)
    ensures Plus(Plus(Plus(a, y), b), x) == Plus(Plus(Plus(a, x), b), y)
  {
  }

  /** A blank row adds nothing to the day's totals. */
  lemma AddKeepsTotals(store: Store, date: string, now: int)
    ensures DateTotals(AddIncomeRow(store, date, now), date) == DateTotals(store, date)
  {
    var rows := RowsOf(store, date);
    var rows' := AddIncomeRow(store, date, now)[date];
    assert rows'[..|rows'| - 1] == rows;
    assert NumberOr0("") == 0.0;
  }

  // ---------------------------------------------------------------- the analysis selection

  /** Toggling a day flips whether it is selected and leaves every other day's
      selection alone; a selection without repeats stays without repeats. */
  lemma ToggleFlipsMembership(days: seq<string>, date: string)
    ensures date in ToggleDaySelection(days, date) <==> date !in days
    ensures forall d :: d != date ==> (d in ToggleDaySelection(days, date) <==> d in days)
    ensures NoRepeats(days) ==> NoRepeats(ToggleDaySelection(days, date))
  {
    if date in days && NoRepeats(days) {
      WithoutNoRepeats(days, date);
    }
  }

  predicate NoRepeats(days: seq<string>) {
    forall i, j :: 0 <= i < j < |days| ==> days[i] != days[j]
  }

  lemma {:induction false} WithoutNoRepeats(days: seq<string>, date: string)
    requires NoRepeats(days)
    ensures NoRepeats(Without(days, date))
  {
    if days != [] {
      WithoutNoRepeats(days[1..], date);
      if days[0] != date {
        var r := Without(days[1..], date);
        assert days[0] !in days[1..];
        assert forall j :: 0 <= j < |r| ==> ([days[0]] + r)[j + 1] == r[j];
      }
    }
  }

  /** Selecting an unselected day adds its totals; selecting it again takes them off. */
  lemma ToggleNewDay(store: Store, days: seq<string>, date: string)
    requires date !in days
    ensures CustomAnalysisTotals(store, ToggleDaySelection(days, date)) == Plus(CustomAnalysisTotals(store, days), DateTotals(store, date))
    ensures ToggleDaySelection(ToggleDaySelection(days, date), date) == days
  {
    var t := days + [date];
    assert t[..|t| - 1] == days;
    WithoutAbsent(days, date);
    WithoutLast(days, date);
  }

  lemma {:induction false} WithoutAbsent(days: seq<string>, date: string)
    requires date !in days
    ensures Without(days, date) == days
  {
    if days != [] {
      WithoutAbsent(days[1..], date);
    }
  }

  lemma {:induction false} WithoutLast(days: seq<string>, date: string)
    ensures Without(days + [date], date) == Without(days, date)
  {
    if days == [] {
      assert [date][1..] == [];
    } else {
      assert (days + [date])[1..] == days[1..] + [date];
      WithoutLast(days[1..], date);
    }
  }

  // ---------------------------------------------------------------- names

  /** Normalizing a normalized name changes nothing. */
  lemma NormalizeIdempotent(name: string)
    ensures NormalizeName(NormalizeName(name)) == NormalizeName(name)
  {
    var t := Trim(name);
    var u := ToLower(t);
    if u != [] {
      assert !IsWhite(u[0]) && !IsWhite(u[|u| - 1]);
      assert Trim(u) == u;
    } else {
      assert Trim(u) == u;
    }
    assert ToLower(u) == u;
  }

  /** An employee's period totals: none for an empty name; when every row of the
      selected days is that employee's, the whole period's totals. */
  lemma EmployeeTotalsAllRows(store: Store, days: seq<string>, who: string)
    requires who != ""
    requires forall i, k :: 0 <= i < |days| && 0 <= k < |RowsOf(store, days[i])| ==> NormalizeName(RowsOf(store, days[i])[k].name) == who
    ensures EmployeePeriodTotals(store, days, who) == Some(CustomAnalysisTotals(store, days))
    ensures EmployeePeriodTotals(store, days, "") == None
  {
    EmployeeTotalsOverAll(store, days, who);
  }

  lemma {:induction false} EmployeeTotalsOverAll(store: Store, days: seq<string>, who: string)
    requires forall i, k :: 0 <= i < |days| && 0 <= k < |RowsOf(store, days[i])| ==> NormalizeName(RowsOf(store, days[i])[k].name) == who
    ensures EmployeeTotalsOver(store, days, who) == CustomAnalysisTotals(store, days)
  {
    if days != [] {
      var front := days[..|days| - 1];
      assert forall i :: 0 <= i < |front| ==> front[i] == days[i];
      EmployeeTotalsOverAll(store, front, who);
      RowsNamedAll(RowsOf(store, days[|days| - 1]), who);
    }
  }

  lemma RowsNamedAll(rows: seq<IncomeRow>, who: string)
    requires forall k :: 0 <= k < |rows| ==> NormalizeName(rows[k].name) == who
    ensures RowsNamed(rows, who) == rows
  {
    FilterKeepsAll(rows, Named(who));
  }

  /** Everybody else's totals over the selected days. */
  function OthersTotalsOver(store: Store, days: seq<string>, who: string): Totals {
    if days == [] then Zero
    else Plus(OthersTotalsOver(store, days[..|days| - 1], who), SumRows(RowsNotNamed(RowsOf(store, days[|days| - 1]), who)))
  }

  /** An employee's period totals and everybody else's add up to the period's
      totals: each row of a selected day counts for exactly one of the two. */
  lemma {:induction false} EmployeeTotalsPartition(store: Store, days: seq<string>, who: string)
    ensures EmployeePeriodTotals(store, days, who).None? <==> who == ""
    ensures who != "" ==>
      Plus(EmployeePeriodTotals(store, days, who).value, OthersTotalsOver(store, days, who)) == CustomAnalysisTotals(store, days)
  {
    TotalsOverPartition(store, days, who);
  }

  lemma {:induction false} TotalsOverPartition(store: Store, days: seq<string>, who: string)
    ensures Plus(EmployeeTotalsOver(store, days, who), OthersTotalsOver(store, days, who)) == CustomAnalysisTotals(store, days)
  {
    if days != [] {
      var front, last := days[..|days| - 1], days[|days| - 1];
      TotalsOverPartition(store, front, who);
      SumRowsPartition(RowsOf(store, last), who);
      PlusShuffle(EmployeeTotalsOver(store, front, who), SumRows(RowsNamed(RowsOf(store, last), who)),
                  OthersTotalsOver(store, front, who), SumRows(RowsNotNamed(RowsOf(store, last), who)));
    }
  }

  lemma PlusShuffle(a: Totals, b: Totals, c: Totals, d: Totals)
    ensures Plus(Plus(a, b), Plus(c, d)) == Plus(Plus(a, c), Plus(b, d))
  {
  }

  /** Within one day, the employee's rows and the others' rows add up to the day. */
  lemma {:induction false} SumRowsPartition(rows: seq<IncomeRow>, who: string)
    ensures Plus(SumRows(RowsNamed(rows, who)), SumRows(RowsNotNamed(rows, who))) == SumRows(rows)
  {
    if rows != [] {
      var front, last := rows[..|rows| - 1], rows[|rows| - 1];
      var named, others := RowsNamed(front, who), RowsNotNamed(front, who);
      assert rows == front + [last];
      SumRowsPartition(front, who);
      SumRowsSnoc(front, last);
      FilterConcat(front, [last], Named(who));
      FilterConcat(front, [last], NotNamed(who));
      FilterOne(last, Named(who));
      FilterOne(last, NotNamed(who));
      if NormalizeName(last.name) == who {
        assert RowsNamed(rows, who) == named + [last];
        assert RowsNotNamed(rows, who) == others;
        SumRowsSnoc(named, last);
        PlusShuffle(SumRows(named), RowTotals(last), SumRows(others), Zero);
      } else {
        assert RowsNamed(rows, who) == named;
        assert RowsNotNamed(rows, who) == others + [last];
        SumRowsSnoc(others, last);
        PlusAssoc(SumRows(named), SumRows(others), RowTotals(last));
      }
    }
  }

  lemma SumRowsSnoc(rows: seq<IncomeRow>, x: IncomeRow)
    ensures SumRows(rows + [x]) == Plus(SumRows(rows), RowTotals(x))
  {
    assert (rows + [x])[..|rows|] == rows;
  }

  /** A row of somebody else, added to any day, leaves the employee's totals as
      they were. */
  lemma {:induction false} OtherRowAddsNothing(store: Store, days: seq<string>, who: string, date: string, row: IncomeRow)
    requires NormalizeName(row.name) != who
    ensures EmployeeTotalsOver(store[date := RowsOf(store, date) + [row]], days, who) == EmployeeTotalsOver(store, days, who)
  {
    if days != [] {
      OtherRowAddsNothing(store, days[..|days| - 1], who, date, row);
      OtherRowKeepsDay(store, days[|days| - 1], who, date, row);
    }
  }

  lemma OtherRowKeepsDay(store: Store, day: string, who: string, date: string, row: IncomeRow)
    requires NormalizeName(row.name) != who
    ensures RowsNamed(RowsOf(store[date := RowsOf(store, date) + [row]], day), who) == RowsNamed(RowsOf(store, day), who)
  {
    if day == date {
      FilterConcat(RowsOf(store, date), [row], Named(who));
      FilterOne(row, Named(who));
      assert RowsNamed(RowsOf(store, date), who) + [] == RowsNamed(RowsOf(store, date), who);
    }
  }

  // ---------------------------------------------------------------- CSV export of a day

  const DayHeaders: seq<string> := ["Nombre Completo", "Puesto", "Net Sales ($)", "Tips ($)", "Gratuity ($)", "5%", "T+G", "T+G-5%"]

  /** One row as a CSV line; `show` is JavaScript's default number-to-text. */
  function IncomeLine(row: IncomeRow, show: real -> string): string {
    QuotedRow([row.name, row.position, show(NumberOr0(row.netSales)), show(NumberOr0(row.tips)),
               show(NumberOr0(row.gratuity)), show(row.fivePercent), show(row.tPlusG), show(row.tPlusGMinusFive)])
  }

  function IncomeLines(rows: seq<IncomeRow>, show: real -> string): seq<string> {
    seq(|rows|, k requires 0 <= k < |rows| => IncomeLine(rows[k], show))
  }

  /** `convertDayDataToCSV`: nothing for a day without rows, otherwise the header
      and one line per row. */
  function DayDataCsv(store: Store, date: string, show: real -> string): string {
    var rows := RowsOf(store, date);
    if |rows| == 0 then "" else Join([Join(DayHeaders, ",")] + IncomeLines(rows, show), "\n")
  }

  lemma DayHeaderOneLine()
    ensures '\n' !in Join(DayHeaders, ",")
  {
    forall k | 0 <= k < |DayHeaders|
      ensures '\n' !in DayHeaders[k]
    {
      var h := DayHeaders[k];
      assert forall j :: 0 <= j < |h| ==> h[j] != '\n';
    }
    JoinExcludes(DayHeaders, ",", '\n');
  }

  lemma IncomeLineOneLine(row: IncomeRow, show: real -> string)
    requires '\n' !in row.name && '\n' !in row.position
    requires forall x :: '\n' !in show(x)
    ensures '\n' !in IncomeLine(row, show)
  {
    QuotedRowOneLine([row.name, row.position, show(NumberOr0(row.netSales)), show(NumberOr0(row.tips)),
                      show(NumberOr0(row.gratuity)), show(row.fivePercent), show(row.tPlusG), show(row.tPlusGMinusFive)]);
  }

  /** Read back line by line, a day's export is the header and then one line per
      row in order, provided names, positions and numbers print without line breaks. */
  lemma DayDataCsvLines(store: Store, date: string, show: real -> string)
    requires |RowsOf(store, date)| > 0
    requires forall k :: 0 <= k < |RowsOf(store, date)| ==>
      '\n' !in RowsOf(store, date)[k].name && '\n' !in RowsOf(store, date)[k].position
    requires forall x :: '\n' !in show(x)
    ensures SplitOn(DayDataCsv(store, date, show), '\n') == [Join(DayHeaders, ",")] + IncomeLines(RowsOf(store, date), show)
    ensures |SplitOn(DayDataCsv(store, date, show), '\n')| == 1 + |RowsOf(store, date)|
  {
    var rows := RowsOf(store, date);
    var all := [Join(DayHeaders, ",")] + IncomeLines(rows, show);
    forall k | 0 <= k < |all|
      ensures '\n' !in all[k]
    {
      if k == 0 {
        DayHeaderOneLine();
      } else {
        IncomeLineOneLine(rows[k - 1], show);
      }
    }
    SplitJoin(all, '\n');
  }
}
