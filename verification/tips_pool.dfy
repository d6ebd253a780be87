/// The tips pool of one business day: a total amount of tips and a list of rows,
/// one per position, each with a share of the total in percent, a headcount and
/// one column per employee holding the hours worked and the tips received.
/// The store maps a date string to its day.
module TipsPool {
  import opened Text

  datatype Employee = Employee(id: int, name: string, hours: real, tips: real)

  datatype PoolRow = PoolRow(id: int, position: string, percentage: real, personal: nat, employees: seq<Employee>)

  datatype PoolDay = PoolDay(total: real, rows: seq<PoolRow>)

  type Store = map<string, PoolDay>

  /** The edits a user can make to one field of a row. Numbers arrive as the text
      typed in an input; the headcount arrives already read as a count. */
  datatype Edit =
    | SetPosition(position: string)
    | SetPercentage(text: string)
    | SetPersonal(count: nat)
    | SetEmployeeName(index: int, name: string)
    | SetEmployeeHours(index: int, text: string)

  /** `prev[date] || { total: 0, rows: [] }`. */
  function DayOf(store: Store, date: string): PoolDay {
    if date in store then store[date] else PoolDay(0.0, [])
  }

  // ---------------------------------------------------------------- sums

  function SumHours(e: seq<Employee>): real {
    if e == [] then 0.0 else e[0].hours + SumHours(e[1..])
  }

  function SumTips(e: seq<Employee>): real {
    if e == [] then 0.0 else e[0].tips + SumTips(e[1..])
  }

  function SumPercentages(rows: seq<PoolRow>): real {
    if rows == [] then 0.0 else rows[0].percentage + SumPercentages(rows[1..])
  }

  // ---------------------------------------------------------------- the split

  /** One employee's tips: the position's share of the total, weighted by the
      employee's part of the position's hours; nothing when the hours do not add
      up to a positive amount. */
  function TipShare(total: real, percentage: real, hours: real, rowHours: real): real {
    if rowHours > 0.0 then total * (percentage / 100.0) * hours / rowHours else 0.0
  }

  /** The row with every employee's tips recomputed from `total`. */
  function Redistribute(total: real, row: PoolRow): PoolRow {
    var e := row.employees;
    row.(employees := seq(|e|, k requires 0 <= k < |e| =>
      e[k].(tips := TipShare(total, row.percentage, e[k].hours, SumHours(e)))))
  }

  /** Every tip of the row agrees with the split of `total`. */
  predicate BalancedRow(total: real, row: PoolRow) {
    forall k :: 0 <= k < |row.employees| ==>
      row.employees[k].tips == TipShare(total, row.percentage, row.employees[k].hours, SumHours(row.employees))
  }

  /** Every stored tip agrees with the split of the day's current total. */
  predicate Balanced(day: PoolDay) {
    forall i :: 0 <= i < |day.rows| ==> BalancedRow(day.total, day.rows[i])
  }

  /** Every row has as many employee columns as its headcount says. */
  predicate Synced(day: PoolDay) {
    forall i :: 0 <= i < |day.rows| ==> |day.rows[i].employees| == day.rows[i].personal
  }

  /** The row with every tip erased: what a row edit decides, apart from the split. */
  function Shape(row: PoolRow): PoolRow {
    var e := row.employees;
    row.(employees := seq(|e|, k requires 0 <= k < |e| => e[k].(tips := 0.0)))
  }

  // ---------------------------------------------------------------- row edits

  function DefaultRow(id: int): PoolRow {
    PoolRow(id, "", 0.0, 0, [])
  }

  /** `n` fresh, empty employee columns with ids `now`, `now + 1`, ... */
  function NewColumns(n: nat, now: int): seq<Employee> {
    seq(n, i => Employee(now + i, "", 0.0, 0.0))
  }

  /** Setting the headcount: columns are appended or cut off to match it. */
  function Resize(row: PoolRow, count: nat, now: int): PoolRow {
    var e := row.employees;
    var cols := if count > |e| then e + NewColumns(count - |e|, now) else if count < |e| then e[..count] else e;
    row.(personal := count, employees := cols)
  }

  function ApplyEdit(row: PoolRow, edit: Edit, now: int): PoolRow {
    match edit
    case SetPosition(p) => row.(position := p)
    case SetPercentage(t) => row.(percentage := NumberOr0(t))
    case SetPersonal(n) => Resize(row, n, now)
    case SetEmployeeName(k, name) =>
      if 0 <= k < |row.employees| then row.(employees := row.employees[k := row.employees[k].(name := name)]) else row
    case SetEmployeeHours(k, t) =>
      if 0 <= k < |row.employees| then row.(employees := row.employees[k := row.employees[k].(hours := NumberOr0(t))]) else row
  }

  /** The day's rows with the edit applied to the row at `rowIndex`, a blank row
      with id `now + rowIndex` standing in when the index is one past the end. */
  function EditedRows(day: PoolDay, rowIndex: nat, edit: Edit, now: int): seq<PoolRow>
    requires rowIndex <= |day.rows|
  {
    var rows := if rowIndex == |day.rows| then day.rows + [DefaultRow(now + rowIndex)] else day.rows;
    rows[rowIndex := ApplyEdit(rows[rowIndex], edit, now)]
  }

  /** Every row recomputed from `total`. */
  function RedistributeAll(total: real, rows: seq<PoolRow>): seq<PoolRow> {
    seq(|rows|, i requires 0 <= i < |rows| => Redistribute(total, rows[i]))
  }

  /** `updateTipsPoolRow`: apply the edit to one row, then recompute every row of the
      day from the stored total. */
  function UpdateTipsPoolRow(store: Store, date: string, rowIndex: nat, edit: Edit, now: int): Store
    requires rowIndex <= |DayOf(store, date).rows|
  {
    var day := DayOf(store, date);
    store[date := PoolDay(day.total, RedistributeAll(day.total, EditedRows(day, rowIndex, edit, now)))]
  }

  /** `addTipsPoolRow`. */
  function AddTipsPoolRow(store: Store, date: string, now: int): Store {
    var day := DayOf(store, date);
    store[date := PoolDay(day.total, day.rows + [DefaultRow(now)])]
  }

  /** `deleteTipsPoolRow`: keep every row whose index differs from `rowIndex`. */
  function DeleteTipsPoolRow(store: Store, date: string, rowIndex: int): Store {
    var day := DayOf(store, date);
    var rows := if 0 <= rowIndex < |day.rows| then day.rows[..rowIndex] + day.rows[rowIndex + 1..] else day.rows;
    store[date := PoolDay(day.total, rows)]
  }

  /** The total input's change handler: only the total is replaced. */
  function SetTotal(store: Store, date: string, text: string): Store {
    store[date := DayOf(store, date).(total := NumberOr0(text))]
  }

  /** `calculatePercentageSum`. */
  function PercentageSum(store: Store, date: string): real {
    SumPercentages(DayOf(store, date).rows)
  }

  datatype Status = Remaining(missing: real) | AllAssigned | Over(excess: real)

  /** The advisory status shown beside the total. */
  function StatusOf(sum: real): (st: Status)
    ensures st.Remaining? <==> sum < 100.0
    ensures st.AllAssigned? <==> sum == 100.0
    ensures st.Over? <==> sum > 100.0
    ensures st.Remaining? ==> st.missing > 0.0 && sum + st.missing == 100.0
    ensures st.Over? ==> st.excess > 0.0 && sum - st.excess == 100.0
  {
    if sum < 100.0 then Remaining(100.0 - sum)
    else if sum == 100.0 then AllAssigned
    else Over(sum - 100.0)
  }

  // ---------------------------------------------------------------- the split adds up

  /** Sums over employees depend only on the summed field. */
  lemma {:induction false} SumHoursSame(a: seq<Employee>, b: seq<Employee>)
    requires |a| == |b|
    requires forall k :: 0 <= k < |a| ==> a[k].hours == b[k].hours
    ensures SumHours(a) == SumHours(b)
  {
    if a != [] {
      SumHoursSame(a[1..], b[1..]);
    }
  }

  /** Tips that are the same fraction of each employee's hours add up to that
      fraction of the hours' sum. */
  lemma {:induction false} ProportionalSum(e: seq<Employee>, pool: real, rowHours: real)
    requires rowHours > 0.0
    requires forall k :: 0 <= k < |e| ==> e[k].tips == pool * e[k].hours / rowHours
    ensures SumTips(e) == pool * SumHours(e) / rowHours
  {
    if e != [] {
      ProportionalSum(e[1..], pool, rowHours);
      var h, rest := e[0].hours, SumHours(e[1..]);
      assert pool * (h + rest) == pool * h + pool * rest;
      assert (pool * h + pool * rest) / rowHours == pool * h / rowHours + pool * rest / rowHours;
    }
  }

  /** A balanced row with positive hours hands out exactly its share of the total. */
  lemma RowTipsAddUp(total: real, row: PoolRow)
    requires BalancedRow(total, row) && SumHours(row.employees) > 0.0
    ensures SumTips(row.employees) == total * (row.percentage / 100.0)
  {
    var h := SumHours(row.employees);
    ProportionalSum(row.employees, total * (row.percentage / 100.0), h);
  }

  /** Recomputing a row leaves everything but the tips alone and balances the row. */
  lemma RedistributeBalances(total: real, row: PoolRow)
    ensures Shape(Redistribute(total, row)) == Shape(row)
    ensures SumHours(Redistribute(total, row).employees) == SumHours(row.employees)
    ensures BalancedRow(total, Redistribute(total, row))
  {
    var r := Redistribute(total, row);
    SumHoursSame(r.employees, row.employees);
    assert Shape(r).employees == Shape(row).employees;
  }

  /** Recomputing every row balances the day; a row with positive hours then hands
      out exactly `total * percentage / 100` and a row without gives nobody anything. */
  lemma RedistributeAllSplits(total: real, rows: seq<PoolRow>)
    ensures Balanced(PoolDay(total, RedistributeAll(total, rows)))
    ensures var r := RedistributeAll(total, rows);
      forall i :: 0 <= i < |r| && SumHours(r[i].employees) > 0.0 ==>
        SumTips(r[i].employees) == total * (r[i].percentage / 100.0)
    ensures var r := RedistributeAll(total, rows);
      forall i, k :: 0 <= i < |r| && SumHours(r[i].employees) <= 0.0 && 0 <= k < |r[i].employees| ==>
        r[i].employees[k].tips == 0.0
  {
    var r := RedistributeAll(total, rows);
    forall i | 0 <= i < |r|
      ensures BalancedRow(total, r[i])
    {
      RedistributeBalances(total, rows[i]);
    }
    forall i | 0 <= i < |r| && SumHours(r[i].employees) > 0.0
      ensures SumTips(r[i].employees) == total * (r[i].percentage / 100.0)
    {
      RowTipsAddUp(total, r[i]);
    }
  }

  /** After any row edit every tip of the day is the split of the stored total. */
  lemma UpdateSplitsTips(store: Store, date: string, rowIndex: nat, edit: Edit, now: int)
    requires rowIndex <= |DayOf(store, date).rows|
    ensures Balanced(UpdateTipsPoolRow(store, date, rowIndex, edit, now)[date])
  {
    var day := DayOf(store, date);
    RedistributeAllSplits(day.total, EditedRows(day, rowIndex, edit, now));
  }

  // ---------------------------------------------------------------- what a row edit changes

  /** A row edit touches only its date and keeps the total; the edited row takes the
      edit, a blank row being appended first when the index is one past the end, and
      every other row keeps everything but its tips. */
  lemma UpdateFrame(store: Store, date: string, rowIndex: nat, edit: Edit, now: int)
    requires rowIndex <= |DayOf(store, date).rows|
    ensures var s := UpdateTipsPoolRow(store, date, rowIndex, edit, now);
      forall d :: d != date ==> (d in s <==> d in store) && (d in store ==> s[d] == store[d])
    ensures var day, day' := DayOf(store, date), UpdateTipsPoolRow(store, date, rowIndex, edit, now)[date];
      && day'.total == day.total
      && |day'.rows| == (if rowIndex == |day.rows| then |day.rows| + 1 else |day.rows|)
      && (forall i :: 0 <= i < |day.rows| && i != rowIndex ==> Shape(day'.rows[i]) == Shape(day.rows[i]))
      && Shape(day'.rows[rowIndex])
         == Shape(ApplyEdit(if rowIndex < |day.rows| then day.rows[rowIndex] else DefaultRow(now + rowIndex), edit, now))
  {
    var day := DayOf(store, date);
    var edited := EditedRows(day, rowIndex, edit, now);
    forall i | 0 <= i < |edited|
      ensures Shape(RedistributeAll(day.total, edited)[i]) == Shape(edited[i])
    {
      RedistributeBalances(day.total, edited[i]);
    }
  }

  /** Setting the headcount to `n` leaves exactly `n` columns: the first ones keep
      their id, name, hours and tips, the added ones are blank with fresh ids. */
  lemma ResizeColumns(row: PoolRow, n: nat, now: int)
    ensures var r := Resize(row, n, now);
      && r.personal == n && |r.employees| == n
      && r.id == row.id && r.position == row.position && r.percentage == row.percentage
      && (forall k :: 0 <= k < n && k < |row.employees| ==> r.employees[k] == row.employees[k])
      && (forall k :: |row.employees| <= k < n ==> r.employees[k] == Employee(now + (k - |row.employees|), "", 0.0, 0.0))
  {
  }

  /** Editing one employee's name or hours changes that field of that column only;
      an index outside the columns changes nothing. */
  lemma EmployeeEdit(row: PoolRow, edit: Edit, now: int)
    requires edit.SetEmployeeName? || edit.SetEmployeeHours?
    ensures var r := ApplyEdit(row, edit, now);
      && r.id == row.id && r.position == row.position && r.percentage == row.percentage && r.personal == row.personal
      && |r.employees| == |row.employees|
      && (forall k :: 0 <= k < |row.employees| && k != edit.index ==> r.employees[k] == row.employees[k])
      && (0 <= edit.index < |row.employees| ==>
           var e, e' := row.employees[edit.index], r.employees[edit.index];
           e'.id == e.id && e'.tips == e.tips
           && (if edit.SetEmployeeName? then e'.name == edit.name && e'.hours == e.hours
               else e'.name == e.name && e'.hours == NumberOr0(edit.text)))
  {
  }

  /** After setting the headcount through a row edit, the row has that many columns:
      the kept ones with their ids, names and hours, the added ones blank with no tips. */
  lemma UpdateResizes(store: Store, date: string, rowIndex: nat, n: nat, now: int)
    requires rowIndex <= |DayOf(store, date).rows|
    ensures var day := DayOf(store, date);
      var before := if rowIndex < |day.rows| then day.rows[rowIndex].employees else [];
      var row := UpdateTipsPoolRow(store, date, rowIndex, SetPersonal(n), now)[date].rows[rowIndex];
      && row.personal == n && |row.employees| == n
      && (forall k :: 0 <= k < n && k < |before| ==>
           row.employees[k].id == before[k].id && row.employees[k].name == before[k].name
           && row.employees[k].hours == before[k].hours)
      && (forall k :: |before| <= k < n ==>
           row.employees[k] == Employee(now + (k - |before|), "", 0.0, 0.0))
  {
    var day := DayOf(store, date);
    var base := if rowIndex < |day.rows| then day.rows[rowIndex] else DefaultRow(now + rowIndex);
    var edited := EditedRows(day, rowIndex, SetPersonal(n), now);
    assert edited[rowIndex] == Resize(base, n, now);
    RedistributeBalances(day.total, edited[rowIndex]);
    ResizeColumns(base, n, now);
    var row := UpdateTipsPoolRow(store, date, rowIndex, SetPersonal(n), now)[date].rows[rowIndex];
    assert row == Redistribute(day.total, edited[rowIndex]);
    forall k | |base.employees| <= k < n
      ensures row.employees[k] == Employee(now + (k - |base.employees|), "", 0.0, 0.0)
    {
      assert Shape(row).employees[k] == Shape(edited[rowIndex]).employees[k];
    }
    forall k | 0 <= k < n && k < |base.employees|
      ensures row.employees[k].id == base.employees[k].id && row.employees[k].name == base.employees[k].name
           && row.employees[k].hours == base.employees[k].hours
    {
      assert Shape(row).employees[k] == Shape(edited[rowIndex]).employees[k];
    }
  }

  // ---------------------------------------------------------------- invariants of the day

  /** Headcount and column count stay in step under every operation on the day, and a
      headcount edit brings its row in step whatever it was before. */
  lemma SyncedInvariant(store: Store, date: string, rowIndex: nat, edit: Edit, now: int, k: int, text: string)
    requires Synced(DayOf(store, date))
    requires rowIndex <= |DayOf(store, date).rows|
    ensures Synced(UpdateTipsPoolRow(store, date, rowIndex, edit, now)[date])
    ensures Synced(AddTipsPoolRow(store, date, now)[date])
    ensures Synced(DeleteTipsPoolRow(store, date, k)[date])
    ensures Synced(SetTotal(store, date, text)[date])
  {
    SyncedUpdate(store, date, rowIndex, edit, now);
    SyncedDelete(store, date, k);
  }

  lemma SyncedUpdate(store: Store, date: string, rowIndex: nat, edit: Edit, now: int)
    requires Synced(DayOf(store, date))
    requires rowIndex <= |DayOf(store, date).rows|
    ensures Synced(UpdateTipsPoolRow(store, date, rowIndex, edit, now)[date])
  {
    var day := DayOf(store, date);
    var edited := EditedRows(day, rowIndex, edit, now);
    forall i | 0 <= i < |edited|
      ensures |RedistributeAll(day.total, edited)[i].employees| == RedistributeAll(day.total, edited)[i].personal
    {
      if i == rowIndex && edit.SetPersonal? {
        ResizeColumns(if rowIndex < |day.rows| then day.rows[rowIndex] else DefaultRow(now + rowIndex), edit.count, now);
      }
    }
  }

  lemma SyncedDelete(store: Store, date: string, k: int)
    requires Synced(DayOf(store, date))
    ensures Synced(DeleteTipsPoolRow(store, date, k)[date])
  {
    var day := DayOf(store, date);
    var rows := DeleteTipsPoolRow(store, date, k)[date].rows;
    if 0 <= k < |day.rows| {
      forall i | 0 <= i < |rows|
        ensures |rows[i].employees| == rows[i].personal
      {
        if i >= k {
          assert rows[i] == day.rows[i + 1];
        }
      }
    }
  }

  /** Adding or deleting a row keeps every stored tip in line with the total. */
  lemma BalancedInvariant(store: Store, date: string, now: int, k: int)
    requires Balanced(DayOf(store, date))
    ensures Balanced(AddTipsPoolRow(store, date, now)[date])
    ensures Balanced(DeleteTipsPoolRow(store, date, k)[date])
  {
    var day := DayOf(store, date);
    var rows := DeleteTipsPoolRow(store, date, k)[date].rows;
    if 0 <= k < |day.rows| {
      forall i | 0 <= i < |rows|
        ensures BalancedRow(day.total, rows[i])
      {
        if i >= k {
          assert rows[i] == day.rows[i + 1];
        }
      }
    }
  }

  /** Setting the total replaces the total and nothing else: the rows, and the tips
      stored in them, stay as they were until the next row edit. */
  lemma SetTotalKeepsRows(store: Store, date: string, text: string)
    ensures var s := SetTotal(store, date, text);
      && s[date].total == NumberOr0(text) && s[date].rows == DayOf(store, date).rows
      && forall d :: d != date ==> (d in s <==> d in store) && (d in store ==> s[d] == store[d])
  {
  }

  /** So the tips on screen can disagree with the total: clearing the total of a
      balanced day keeps the old tips. */
  lemma SetTotalLeavesTipsStale()
    ensures var store := map["d" := PoolDay(100.0, [PoolRow(1, "", 50.0, 1, [Employee(2, "", 1.0, 50.0)])])];
      Balanced(DayOf(store, "d")) && !Balanced(SetTotal(store, "d", "")["d"])
  {
    var store := map["d" := PoolDay(100.0, [PoolRow(1, "", 50.0, 1, [Employee(2, "", 1.0, 50.0)])])];
    var row := store["d"].rows[0];
    assert SumHours(row.employees) == 1.0;
    assert BalancedRow(100.0, row);
    assert NumberOr0("") == 0.0;
    assert !BalancedRow(0.0, row);
  }

  // ---------------------------------------------------------------- adding and deleting rows

  /** A new row is blank and goes last; an unseen date starts from a zero total. */
  lemma AddAppends(store: Store, date: string, now: int)
    ensures var day, day' := DayOf(store, date), AddTipsPoolRow(store, date, now)[date];
      && day'.total == day.total && |day'.rows| == |day.rows| + 1
      && day'.rows[..|day.rows|] == day.rows
      && day'.rows[|day.rows|] == PoolRow(now, "", 0.0, 0, [])
    ensures date !in store ==> AddTipsPoolRow(store, date, now)[date] == PoolDay(0.0, [PoolRow(now, "", 0.0, 0, [])])
    ensures var s := AddTipsPoolRow(store, date, now);
      forall d :: d != date ==> (d in s <==> d in store) && (d in store ==> s[d] == store[d])
  {
  }

  /** Deleting the row at a valid index removes exactly that row and keeps the others
      in order; any other index leaves the rows as they were. */
  lemma DeleteRemoves(store: Store, date: string, k: int)
    ensures var day, day' := DayOf(store, date), DeleteTipsPoolRow(store, date, k)[date];
      && day'.total == day.total
      && (0 <= k < |day.rows| ==>
           |day'.rows| == |day.rows| - 1
           && (forall i :: 0 <= i < k ==> day'.rows[i] == day.rows[i])
           && (forall i :: k <= i < |day'.rows| ==> day'.rows[i] == day.rows[i + 1]))
      && (!(0 <= k < |day.rows|) ==> day'.rows == day.rows)
    ensures var s := DeleteTipsPoolRow(store, date, k);
      forall d :: d != date ==> (d in s <==> d in store) && (d in store ==> s[d] == store[d])
  {
  }

  /** Deleting the row just added gives the day back. */
  lemma DeleteUndoesAdd(store: Store, date: string, now: int)
    ensures DeleteTipsPoolRow(AddTipsPoolRow(store, date, now), date, |DayOf(store, date).rows|)[date] == DayOf(store, date)
  {
    var day := DayOf(store, date);
    var rows := day.rows + [DefaultRow(now)];
    assert rows[..|day.rows|] + rows[|day.rows| + 1..] == day.rows;
  }

  // ---------------------------------------------------------------- the percentage sum

  lemma {:induction false} SumPercentagesConcat(a: seq<PoolRow>, b: seq<PoolRow>)
    ensures SumPercentages(a + b) == SumPercentages(a) + SumPercentages(b)
  {
    if a == [] {
      assert a + b == b;
    } else {
      assert (a + b)[1..] == a[1..] + b;
      SumPercentagesConcat(a[1..], b);
    }
  }

  lemma {:induction false} SumPercentagesSame(a: seq<PoolRow>, b: seq<PoolRow>)
    requires |a| == |b|
    requires forall i :: 0 <= i < |a| ==> a[i].percentage == b[i].percentage
    ensures SumPercentages(a) == SumPercentages(b)
  {
    if a != [] {
      SumPercentagesSame(a[1..], b[1..]);
    }
  }

  /** Replacing one row changes the sum by the difference of the two percentages. */
  lemma SumPercentagesReplace(rows: seq<PoolRow>, i: nat, r: PoolRow)
    requires i < |rows|
    ensures SumPercentages(rows[i := r]) == SumPercentages(rows) - rows[i].percentage + r.percentage
  {
    assert rows == rows[..i] + [rows[i]] + rows[i + 1..];
    assert rows[i := r] == rows[..i] + [r] + rows[i + 1..];
    SumPercentagesConcat(rows[..i] + [rows[i]], rows[i + 1..]);
    SumPercentagesConcat(rows[..i], [rows[i]]);
    SumPercentagesConcat(rows[..i] + [r], rows[i + 1..]);
    SumPercentagesConcat(rows[..i], [r]);
  }

  /** Deleting a row takes its percentage off the sum; adding a blank row leaves the
      sum alone. */
  lemma PercentageSumAddDelete(store: Store, date: string, now: int, k: int)
    ensures PercentageSum(AddTipsPoolRow(store, date, now), date) == PercentageSum(store, date)
    ensures var rows := DayOf(store, date).rows;
      PercentageSum(DeleteTipsPoolRow(store, date, k), date)
      == if 0 <= k < |rows| then PercentageSum(store, date) - rows[k].percentage else PercentageSum(store, date)
  {
    var rows := DayOf(store, date).rows;
    SumPercentagesConcat(rows, [DefaultRow(now)]);
    if 0 <= k < |rows| {
      assert rows == rows[..k] + [rows[k]] + rows[k + 1..];
      SumPercentagesConcat(rows[..k] + [rows[k]], rows[k + 1..]);
      SumPercentagesConcat(rows[..k], [rows[k]]);
      SumPercentagesConcat(rows[..k], rows[k + 1..]);
    }
  }

  /** A percentage edit moves the sum from the row's old percentage to the new one;
      every other edit leaves the sum alone. */
  lemma PercentageSumUpdate(store: Store, date: string, rowIndex: nat, edit: Edit, now: int)
    requires rowIndex <= |DayOf(store, date).rows|
    ensures var rows := DayOf(store, date).rows;
      var before := if rowIndex < |rows| then rows[rowIndex].percentage else 0.0;
      PercentageSum(UpdateTipsPoolRow(store, date, rowIndex, edit, now), date)
      == PercentageSum(store, date) - before + (if edit.SetPercentage? then NumberOr0(edit.text) else before)
  {
    var day := DayOf(store, date);
    var rows := if rowIndex == |day.rows| then day.rows + [DefaultRow(now + rowIndex)] else day.rows;
    var edited := EditedRows(day, rowIndex, edit, now);
    var r := ApplyEdit(rows[rowIndex], edit, now);
    assert edited == rows[rowIndex := r];
    SumPercentagesSame(RedistributeAll(day.total, edited), edited);
    SumPercentagesReplace(rows, rowIndex, r);
    if rowIndex == |day.rows| {
      SumPercentagesConcat(day.rows, [DefaultRow(now + rowIndex)]);
    }
  }

  // ---------------------------------------------------------------- the whole day

  function DayTips(rows: seq<PoolRow>): real {
    if rows == [] then 0.0 else SumTips(rows[0].employees) + DayTips(rows[1..])
  }

  /** When every row of a balanced day has positive hours, the day hands out the
      total times the percentage sum over 100. */
  lemma {:induction false} DayTipsShare(total: real, rows: seq<PoolRow>)
    requires forall i :: 0 <= i < |rows| ==> BalancedRow(total, rows[i]) && SumHours(rows[i].employees) > 0.0
    ensures DayTips(rows) == total * SumPercentages(rows) / 100.0
  {
    forall i | 0 <= i < |rows|
      ensures SumTips(rows[i].employees) == Share(total, rows[i].percentage)
    {
      RowTipsAddUp(total, rows[i]);
    }
    DayTipsSum(total, rows);
    var p := SumPercentages(rows);
    assert total * (p / 100.0) == total * p / 100.0;
  }

  /** `total * (p / 100)`: the part of the total that `p` percent is. */
  function Share(total: real, p: real): real {
    total * (p / 100.0)
  }

  lemma {:induction false} DayTipsSum(total: real, rows: seq<PoolRow>)
    requires forall i :: 0 <= i < |rows| ==> SumTips(rows[i].employees) == Share(total, rows[i].percentage)
    ensures DayTips(rows) == Share(total, SumPercentages(rows))
  {
    if rows != [] {
      DayTipsSum(total, rows[1..]);
      ShareAdd(total, rows[0].percentage, SumPercentages(rows[1..]));
    }
  }

  lemma ShareAdd(t: real, p: real, q: real)
    ensures Share(t, p) + Share(t, q) == Share(t, p + q)
  {
    assert t * (p / 100.0 + q / 100.0) == t * (p / 100.0) + t * (q / 100.0);
  }

  /** With the status "all assigned" and hours in every row, the tips handed out over
      the day are exactly the total. */
  lemma AllAssignedHandsOutTotal(day: PoolDay)
    requires Balanced(day)
    requires forall i :: 0 <= i < |day.rows| ==> SumHours(day.rows[i].employees) > 0.0
    requires StatusOf(SumPercentages(day.rows)) == AllAssigned
    ensures DayTips(day.rows) == day.total
  {
    DayTipsShare(day.total, day.rows);
  }

  // ---------------------------------------------------------------- CSV export

  const Headers: seq<string> := ["Puesto", "Porcentaje Asignado (%)", "Nombre Empleado", "Horas Trabajadas", "Propinas Recibidas ($)"]

  const CsvHeader: string := Join(Headers, ",")

  /** The first data line: the total with two decimals. */
  function TotalLine(total: real): string {
    Quote("Total Tips Pool: $" + Fixed2(total))
  }

  /** One employee of a row; `show` is JavaScript's default number-to-text. */
  function EmployeeLine(row: PoolRow, e: Employee, show: real -> string): string {
    QuotedRow([row.position, show(row.percentage), e.name, show(e.hours), Fixed2(e.tips)])
  }

  /** The line standing for a row without employee columns. */
  function EmptyRowLine(row: PoolRow, show: real -> string): string {
    QuotedRow([row.position, show(row.percentage), "Sin empleados asignados", "0", "0.00"])
  }

  function RowLines(row: PoolRow, show: real -> string): seq<string> {
    var e := row.employees;
    if |e| > 0 then seq(|e|, k requires 0 <= k < |e| => EmployeeLine(row, e[k], show))
    else [EmptyRowLine(row, show)]
  }

  function RowsLines(rows: seq<PoolRow>, show: real -> string): seq<string> {
    if rows == [] then [] else RowsLines(rows[..|rows| - 1], show) + RowLines(rows[|rows| - 1], show)
  }

  /** One line per employee column, and one for a row without any. */
  function LineCount(rows: seq<PoolRow>): nat {
    if rows == [] then 0
    else LineCount(rows[..|rows| - 1]) + (if |rows[|rows| - 1].employees| > 0 then |rows[|rows| - 1].employees| else 1)
  }

  /** The text `convertTipsPoolToCSV` produces: nothing for a date without rows,
      otherwise the header, the total, a blank line and the rows' lines. */
  function TipsPoolCsv(store: Store, date: string, show: real -> string): string {
    if date !in store || |store[date].rows| == 0 then ""
    else CsvText([TotalLine(store[date].total), ""] + RowsLines(store[date].rows, show))
  }

  /** The header and the given lines, one per line. */
  function CsvText(lines: seq<string>): string {
    Join([CsvHeader] + lines, "\n")
  }

  /** `convertTipsPoolToCSV`. */
  method ConvertTipsPoolToCsv(store: Store, date: string, show: real -> string) returns (csv: string)
    ensures csv == TipsPoolCsv(store, date, show)
  {
    if date !in store || |store[date].rows| == 0 {
      return "";
    }
    var rows := store[date].rows;
    var head := [TotalLine(store[date].total), ""];
    var lines := head;
    var i := 0;
    while i < |rows|
      invariant 0 <= i <= |rows|
      invariant lines == head + RowsLines(rows[..i], show)
    {
      ghost var before := RowsLines(rows[..i], show);
      lines := PushRowLines(lines, rows[i], show);
      RowsLinesSnoc(rows, i, show);
      AppendAssoc(head, before, RowLines(rows[i], show));
      i := i + 1;
    }
    assert rows[..i] == rows;
    csv := CsvText(lines);
  }

  /** The body of the export's `forEach` over rows: one line per employee column,
      or the placeholder line for a row without columns. */
  method PushRowLines(lines: seq<string>, row: PoolRow, show: real -> string) returns (out: seq<string>)
    ensures out == lines + RowLines(row, show)
  {
    out := lines;
    if |row.employees| > 0 {
      var j := 0;
      while j < |row.employees|
        invariant 0 <= j <= |row.employees|
        invariant out == lines + RowLines(row, show)[..j]
      {
        out := out + [EmployeeLine(row, row.employees[j], show)];
        assert RowLines(row, show)[..j + 1] == RowLines(row, show)[..j] + [EmployeeLine(row, row.employees[j], show)];
        j := j + 1;
      }
      assert RowLines(row, show)[..j] == RowLines(row, show);
    } else {
      out := out + [EmptyRowLine(row, show)];
    }
  }

  lemma RowsLinesSnoc(rows: seq<PoolRow>, i: nat, show: real -> string)
    requires i < |rows|
    ensures RowsLines(rows[..i + 1], show) == RowsLines(rows[..i], show) + RowLines(rows[i], show)
  {
    assert rows[..i + 1][..i] == rows[..i];
  }

  /** No line of a row's export holds a line break when its texts do not. */
  predicate OneLineTexts(rows: seq<PoolRow>) {
    forall i :: 0 <= i < |rows| ==>
      '\n' !in rows[i].position
      && forall k :: 0 <= k < |rows[i].employees| ==> '\n' !in rows[i].employees[k].name
  }

  lemma {:induction false} RowsLinesOneLine(rows: seq<PoolRow>, show: real -> string)
    requires OneLineTexts(rows)
    requires forall x :: '\n' !in show(x)
    ensures forall k :: 0 <= k < |RowsLines(rows, show)| ==> '\n' !in RowsLines(rows, show)[k]
    ensures |RowsLines(rows, show)| == LineCount(rows)
  {
    if rows != [] {
      var last := rows[|rows| - 1];
      var front := rows[..|rows| - 1];
      assert OneLineTexts(front) by {
        forall i | 0 <= i < |front|
          ensures '\n' !in front[i].position
          ensures forall k :: 0 <= k < |front[i].employees| ==> '\n' !in front[i].employees[k].name
        {
          assert front[i] == rows[i];
        }
      }
      RowsLinesOneLine(front, show);
      RowLinesOneLine(last, show);
    }
  }

  lemma RowLinesOneLine(row: PoolRow, show: real -> string)
    requires '\n' !in row.position
    requires forall k :: 0 <= k < |row.employees| ==> '\n' !in row.employees[k].name
    requires forall x :: '\n' !in show(x)
    ensures forall k :: 0 <= k < |RowLines(row, show)| ==> '\n' !in RowLines(row, show)[k]
  {
    if |row.employees| > 0 {
      forall k | 0 <= k < |row.employees|
        ensures '\n' !in EmployeeLine(row, row.employees[k], show)
      {
        var e := row.employees[k];
        Fixed2OneLine(e.tips);
        QuotedRowOneLine([row.position, show(row.percentage), e.name, show(e.hours), Fixed2(e.tips)]);
      }
    } else {
      QuotedRowOneLine([row.position, show(row.percentage), "Sin empleados asignados", "0", "0.00"]);
    }
  }

  /** Read back line by line, the export is the header, the total with two decimals,
      a blank line, then one line per employee column of each row in order (one line
      for a row without columns), provided positions, names and numbers print
      without line breaks. */
  lemma TipsPoolCsvLines(store: Store, date: string, show: real -> string)
    requires date in store && |store[date].rows| > 0
    requires OneLineTexts(store[date].rows)
    requires forall x :: '\n' !in show(x)
    ensures SplitOn(TipsPoolCsv(store, date, show), '\n')
      == [CsvHeader, TotalLine(store[date].total), ""] + RowsLines(store[date].rows, show)
    ensures |SplitOn(TipsPoolCsv(store, date, show), '\n')| == 3 + LineCount(store[date].rows)
  {
    var day := store[date];
    var rl := RowsLines(day.rows, show);
    var head := [TotalLine(day.total), ""];
    RowsLinesOneLine(day.rows, show);
    TotalLineOneLine(day.total);
    OneLineConcat(head, rl);
    CsvTextLines(head + rl);
    AppendAssoc([CsvHeader], head, rl);
    assert [CsvHeader] + head == [CsvHeader, TotalLine(day.total), ""];
  }

  lemma TotalLineOneLine(total: real)
    ensures '\n' !in TotalLine(total)
  {
    Fixed2OneLine(total);
    assert TotalLine(total) == "\"" + ("Total Tips Pool: $" + Fixed2(total)) + "\"";
  }

  lemma HeaderOneLine()
    ensures '\n' !in CsvHeader
  {
    forall k | 0 <= k < |Headers|
      ensures '\n' !in Headers[k]
    {
      var h := Headers[k];
      assert forall j :: 0 <= j < |h| ==> h[j] != '\n';
    }
    JoinExcludes(Headers, ",", '\n');
  }

  lemma CsvTextLines(lines: seq<string>)
    requires forall k :: 0 <= k < |lines| ==> '\n' !in lines[k]
    ensures SplitOn(CsvText(lines), '\n') == [CsvHeader] + lines
  {
    var all := [CsvHeader] + lines;
    forall k | 0 <= k < |all|
      ensures '\n' !in all[k]
    {
      if k > 0 {
        assert all[k] == lines[k - 1];
      } else {
        HeaderOneLine();
      }
    }
    SplitJoin(all, '\n');
  }
}
