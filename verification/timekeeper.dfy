/// The restaurant time clock: a list of employees with their hourly rates and a
/// list of time entries, each open (clocked in, no end yet) or closed. Clocking
/// in opens an entry, clocking out closes the employee's first open one; a date
/// range and employee filter selects the entries that the summary of hours and
/// pay and the CSV export are built from.
module Timekeeper {
  import opened Text

  /** A point in time in milliseconds, as `Date.getTime()` reads a timestamp. */
  type Time = int

  datatype Employee = Employee(id: string, name: string, role: string, hourly: real, active: bool)

  /** A time entry; an `end` of `None` is an open shift. */
  datatype TimeEntry = TimeEntry(id: string, employeeId: string, start: Time, end: Option<Time>, note: string)

  /** The two lists the component keeps. */
  datatype Clock = Clock(employees: seq<Employee>, entries: seq<TimeEntry>)

  /** The next value of a list, and the alert shown instead of changing it. */
  datatype Outcome<T> = Outcome(value: T, alert: Option<string>)


  // ---------------------------------------------------------------- helpers

  /** `clamp(n, min, max)`: `Math.max(min, Math.min(max, n))`. */
  function Clamp(n: real, lo: real, hi: real): (r: real)
    ensures r >= lo
    ensures lo <= hi ==> r <= hi
    ensures lo <= n <= hi ==> r == n
    ensures n < lo ==> r == lo
    ensures lo <= hi < n ==> r == hi
  {
    var m := if hi <= n then hi else n;
    if lo >= m then lo else m
  }

  /** The end of a shift, or now while it is open. */
  function EndOr(end: Option<Time>, now: Time): Time {
    if end.Some? then end.value else now
  }

  /** `durationHours`: the hours from start to end (or to now), clamped to [0, 1e6]. */
  function DurationHours(start: Time, end: Option<Time>, now: Time): (h: real)
    ensures 0.0 <= h <= 1000000.0
    ensures EndOr(end, now) <= start ==> h == 0.0
    ensures var span := EndOr(end, now) - start;
      0 <= span && span as real <= 3600000000000.0 ==> h * 3600000.0 == span as real
  {
    Clamp((EndOr(end, now) - start) as real / 3600000.0, 0.0, 1000000.0)
  }

  function Or<T>(o: Option<T>, d: T): T {
    if o.Some? then o.value else d
  }

  // ---------------------------------------------------------------- employees

  /** `addEmployee`: the new employee, active and with a fresh id, goes first. */
  function AddEmployee(employees: seq<Employee>, name: string, role: string, hourly: real, id: string): seq<Employee> {
    [Employee(id, name, role, hourly, true)] + employees
  }

  /** The fields an edit of the employee table sets. */
  datatype EmployeePatch = EmployeePatch(name: Option<string>, role: Option<string>, hourly: Option<real>, active: Option<bool>)

  /** `{...e, ...patch}`. */
  function PatchEmployee(e: Employee, p: EmployeePatch): Employee {
    e.(name := Or(p.name, e.name), role := Or(p.role, e.role), hourly := Or(p.hourly, e.hourly), active := Or(p.active, e.active))
  }

  /** `updateEmployee`: the employees with that id take the patch, the others stay. */
  function UpdateEmployee(employees: seq<Employee>, id: string, p: EmployeePatch): (r: seq<Employee>)
    ensures |r| == |employees|
    ensures forall k :: 0 <= k < |r| ==> r[k].id == employees[k].id
    ensures forall k :: 0 <= k < |r| && employees[k].id != id ==> r[k] == employees[k]
    ensures forall k :: 0 <= k < |r| && employees[k].id == id ==> r[k] == PatchEmployee(employees[k], p)
  {
    Map(employees, (e: Employee) => if e.id == id then PatchEmployee(e, p) else e)
  }

  /** `removeEmployee`: after the confirmation, the employees with that id go;
      their time entries stay. */
  function RemoveEmployee(c: Clock, id: string, confirmed: bool): (r: Clock)
    ensures r.entries == c.entries
    ensures forall e :: e in r.employees <==> e in c.employees && (confirmed ==> e.id != id)
    ensures forall e :: multiset(r.employees)[e] == if confirmed && e.id == id then 0 else multiset(c.employees)[e]
  {
    if !confirmed then c else c.(employees := Filter(c.employees, (e: Employee) => e.id != id))
  }

  /** Removing a just-added employee gives the list back, when its id was fresh. */
  lemma {:induction false} AddThenRemove(employees: seq<Employee>, name: string, role: string, hourly: real, id: string, entries: seq<TimeEntry>)
    requires forall k :: 0 <= k < |employees| ==> employees[k].id != id
    ensures RemoveEmployee(Clock(AddEmployee(employees, name, role, hourly, id), entries), id, true) == Clock(employees, entries)
  {
    var added := AddEmployee(employees, name, role, hourly, id);
    assert added[1..] == employees;
    FilterKeepsAll(employees, (e: Employee) => e.id != id);
  }

  /** Applying the same edit twice changes nothing more. */
  lemma UpdateEmployeeIdempotent(employees: seq<Employee>, id: string, p: EmployeePatch)
    ensures UpdateEmployee(UpdateEmployee(employees, id, p), id, p) == UpdateEmployee(employees, id, p)
  {
    var once := UpdateEmployee(employees, id, p);
    var twice := UpdateEmployee(once, id, p);
    forall k | 0 <= k < |employees|
      ensures twice[k] == once[k]
    {
      if employees[k].id == id {
        assert once[k] == PatchEmployee(employees[k], p);
      }
    }
  }

  // ---------------------------------------------------------------- open shifts

  predicate Open(e: TimeEntry) {
    e.end.None?
  }

  predicate HasOpen(entries: seq<TimeEntry>, employeeId: string) {
    exists k :: 0 <= k < |entries| && entries[k].employeeId == employeeId && Open(entries[k])
  }

  /** How many open entries the employee has. */
  function OpenCount(entries: seq<TimeEntry>, employeeId: string): nat {
    if entries == [] then 0
    else (if entries[0].employeeId == employeeId && Open(entries[0]) then 1 else 0) + OpenCount(entries[1..], employeeId)
  }

  /** The invariant the clock keeps: no employee has two open shifts. */
  ghost predicate OneOpenEach(entries: seq<TimeEntry>) {
    forall employeeId :: OpenCount(entries, employeeId) <= 1
  }

  lemma {:induction false} OpenCountHas(entries: seq<TimeEntry>, employeeId: string)
    ensures HasOpen(entries, employeeId) <==> OpenCount(entries, employeeId) > 0
  {
    if entries != [] {
      OpenCountHas(entries[1..], employeeId);
      if HasOpen(entries[1..], employeeId) {
        var k :| 0 <= k < |entries[1..]| && entries[1..][k].employeeId == employeeId && Open(entries[1..][k]);
        assert entries[k + 1] == entries[1..][k];
      }
      if HasOpen(entries, employeeId) && !(entries[0].employeeId == employeeId && Open(entries[0])) {
        var k :| 0 <= k < |entries| && entries[k].employeeId == employeeId && Open(entries[k]);
        assert entries[1..][k - 1] == entries[k];
      }
    }
  }

  /** Entries that keep their employee and open no shift do not add open shifts. */
  lemma {:induction false} OpenCountNoNewOpen(a: seq<TimeEntry>, b: seq<TimeEntry>, employeeId: string)
    requires |a| == |b|
    requires forall k :: 0 <= k < |a| ==> b[k].employeeId == a[k].employeeId && (Open(b[k]) ==> Open(a[k]))
    ensures OpenCount(b, employeeId) <= OpenCount(a, employeeId)
  {
    if a != [] {
      OpenCountNoNewOpen(a[1..], b[1..], employeeId);
    }
  }

  /** Replacing one entry changes the count by what the two entries contribute. */
  lemma {:induction false} OpenCountUpdate(entries: seq<TimeEntry>, i: nat, x: TimeEntry, employeeId: string)
    requires i < |entries|
    ensures OpenCount(entries[i := x], employeeId)
         == OpenCount(entries, employeeId)
          - (if entries[i].employeeId == employeeId && Open(entries[i]) then 1 else 0)
          + (if x.employeeId == employeeId && Open(x) then 1 else 0)
  {
    if i > 0 {
      OpenCountUpdate(entries[1..], i - 1, x, employeeId);
      assert entries[i := x][1..] == entries[1..][i - 1 := x];
    } else {
      assert entries[i := x][1..] == entries[1..];
    }
  }

  lemma {:induction false} OpenCountFilter(entries: seq<TimeEntry>, keep: TimeEntry -> bool, employeeId: string)
    ensures OpenCount(Filter(entries, keep), employeeId) <= OpenCount(entries, employeeId)
  {
    if entries != [] {
      OpenCountFilter(entries[1..], keep, employeeId);
      var rest := Filter(entries[1..], keep);
      if keep(entries[0]) {
        assert ([entries[0]] + rest)[1..] == rest;
      } else {
        assert [] + rest == rest;
      }
    }
  }

  // ---------------------------------------------------------------- clocking in and out

  /** `clockIn`: a second open shift is refused; otherwise a new open entry goes first. */
  function ClockIn(entries: seq<TimeEntry>, employeeId: string, id: string, now: Time, note: string): (r: Outcome<seq<TimeEntry>>)
    ensures r.alert.Some? <==> HasOpen(entries, employeeId)
    ensures r.alert.Some? ==> r.value == entries && r.alert.value == "Already clocked in."
    ensures r.alert.None? ==> r.value == [TimeEntry(id, employeeId, now, None, note)] + entries
  {
    if HasOpen(entries, employeeId) then Outcome(entries, Some("Already clocked in."))
    else Outcome([TimeEntry(id, employeeId, now, None, note)] + entries, None)
  }

  /** After `clockIn` the employee has exactly one open shift, and nobody has two. */
  lemma ClockInKeepsOneOpen(entries: seq<TimeEntry>, employeeId: string, id: string, now: Time, note: string)
    requires OneOpenEach(entries)
    ensures OneOpenEach(ClockIn(entries, employeeId, id, now, note).value)
    ensures OpenCount(ClockIn(entries, employeeId, id, now, note).value, employeeId) == 1
  {
    var r := ClockIn(entries, employeeId, id, now, note).value;
    OpenCountHas(entries, employeeId);
    if !HasOpen(entries, employeeId) {
      assert r[1..] == entries;
    }
  }

  /** `entries.findIndex(e => e.employeeId === employeeId && !e.end)`, searching from `i`. */
  function FirstOpenFrom(entries: seq<TimeEntry>, employeeId: string, i: nat): (r: Option<nat>)
    requires i <= |entries|
    ensures r.Some? ==> i <= r.value < |entries| && entries[r.value].employeeId == employeeId && Open(entries[r.value])
    ensures r.Some? ==> forall k :: i <= k < r.value ==> !(entries[k].employeeId == employeeId && Open(entries[k]))
    ensures r.None? ==> forall k :: i <= k < |entries| ==> !(entries[k].employeeId == employeeId && Open(entries[k]))
    decreases |entries| - i
  {
    if i == |entries| then None
    else if entries[i].employeeId == employeeId && Open(entries[i]) then Some(i)
    else FirstOpenFrom(entries, employeeId, i + 1)
  }

  function FirstOpen(entries: seq<TimeEntry>, employeeId: string): (r: Option<nat>)
    ensures r.None? <==> !HasOpen(entries, employeeId)
    ensures r.Some? ==> r.value < |entries| && entries[r.value].employeeId == employeeId && Open(entries[r.value])
    ensures r.Some? ==> forall k :: 0 <= k < r.value ==> !(entries[k].employeeId == employeeId && Open(entries[k]))
  {
    FirstOpenFrom(entries, employeeId, 0)
  }

  /** What `clockOut` does: close the employee's first open entry at `now`, or
      alert and change nothing when there is none. */
  function CloseFirstOpen(entries: seq<TimeEntry>, employeeId: string, now: Time): (r: Outcome<seq<TimeEntry>>)
    ensures r.alert.Some? <==> !HasOpen(entries, employeeId)
    ensures r.alert.Some? ==> r.value == entries && r.alert.value == "No active shift."
    ensures |r.value| == |entries|
    ensures forall k :: 0 <= k < |entries| && FirstOpen(entries, employeeId) != Some(k) ==> r.value[k] == entries[k]
    ensures r.alert.None? ==>
      var i := FirstOpen(entries, employeeId).value; r.value[i] == entries[i].(end := Some(now))
  {
    match FirstOpen(entries, employeeId)
    case None => Outcome(entries, Some("No active shift."))
    case Some(i) => Outcome(entries[i := entries[i].(end := Some(now))], None)
  }

  /** `clockOut`: copy the entries and set the end of the first open one. */
  method ClockOut(entries: seq<TimeEntry>, employeeId: string, now: Time) returns (result: seq<TimeEntry>, alert: Option<string>)
    ensures Outcome(result, alert) == CloseFirstOpen(entries, employeeId, now)
  {
    var idx := FirstOpen(entries, employeeId);
    if idx.None? {
      return entries, Some("No active shift.");
    }
    var copy := new TimeEntry[|entries|](k requires 0 <= k < |entries| => entries[k]);
    copy[idx.value] := copy[idx.value].(end := Some(now));
    assert copy[..] == entries[idx.value := entries[idx.value].(end := Some(now))];
    result, alert := copy[..], None;
  }

  /** After `clockOut` the employee has no open shift, and nobody has two. */
  lemma ClockOutKeepsOneOpen(entries: seq<TimeEntry>, employeeId: string, now: Time)
    requires OneOpenEach(entries)
    ensures OneOpenEach(CloseFirstOpen(entries, employeeId, now).value)
    ensures !HasOpen(CloseFirstOpen(entries, employeeId, now).value, employeeId)
  {
    var r := CloseFirstOpen(entries, employeeId, now).value;
    OpenCountHas(entries, employeeId);
    OpenCountHas(r, employeeId);
    var idx := FirstOpen(entries, employeeId);
    if idx.Some? {
      var i := idx.value;
      assert r == entries[i := entries[i].(end := Some(now))];
      OpenCountUpdate(entries, i, entries[i].(end := Some(now)), employeeId);
      forall other
        ensures OpenCount(r, other) <= 1
      {
        OpenCountUpdate(entries, i, entries[i].(end := Some(now)), other);
      }
    }
  }

  /** A shift opened and then closed is one closed entry in front of the old list. */
  lemma ClockInThenOut(entries: seq<TimeEntry>, employeeId: string, id: string, start: Time, end: Time, note: string)
    requires !HasOpen(entries, employeeId)
    ensures var started := ClockIn(entries, employeeId, id, start, note).value;
      CloseFirstOpen(started, employeeId, end) == Outcome([TimeEntry(id, employeeId, start, Some(end), note)] + entries, None)
  {
    var started := ClockIn(entries, employeeId, id, start, note).value;
    assert FirstOpen(started, employeeId) == Some(0);
    assert started[0 := started[0].(end := Some(end))] == [TimeEntry(id, employeeId, start, Some(end), note)] + entries;
  }

  /** `addManualEntry`: a closed entry goes first, unless start or end is empty
      (`None` stands for the empty input). */
  function AddManualEntry(entries: seq<TimeEntry>, employeeId: string, start: Option<Time>, end: Option<Time>, note: string, id: string)
    : (r: Outcome<seq<TimeEntry>>)
    ensures r.alert.Some? <==> start.None? || end.None?
    ensures r.alert.Some? ==> r.value == entries && r.alert.value == "Start and End are required."
    ensures r.alert.None? ==> |r.value| == |entries| + 1 && r.value[1..] == entries && !Open(r.value[0])
    ensures r.alert.None? ==> r.value[0] == TimeEntry(id, employeeId, start.value, end, note)
  {
    if start.None? || end.None? then Outcome(entries, Some("Start and End are required."))
    else Outcome([TimeEntry(id, employeeId, start.value, end, note)] + entries, None)
  }

  lemma AddManualKeepsOneOpen(entries: seq<TimeEntry>, employeeId: string, start: Option<Time>, end: Option<Time>, note: string, id: string)
    requires OneOpenEach(entries)
    ensures OneOpenEach(AddManualEntry(entries, employeeId, start, end, note, id).value)
  {
    var r := AddManualEntry(entries, employeeId, start, end, note, id).value;
    if r != entries {
      forall other
        ensures OpenCount(r, other) <= 1
      {
        assert OpenCount(r, other) == OpenCount(r[1..], other);
      }
    }
  }

  /** The fields an edit of the entry table sets; the end is only ever set to a time. */
  datatype EntryPatch = EntryPatch(start: Option<Time>, end: Option<Time>, note: Option<string>)

  function PatchEntry(e: TimeEntry, p: EntryPatch): TimeEntry {
    e.(start := Or(p.start, e.start), end := if p.end.Some? then p.end else e.end, note := Or(p.note, e.note))
  }

  /** `editEntry`: the entries with that id take the patch, the others stay. */
  function EditEntry(entries: seq<TimeEntry>, id: string, p: EntryPatch): (r: seq<TimeEntry>)
    ensures |r| == |entries|
    ensures forall k :: 0 <= k < |r| ==> r[k].id == entries[k].id && r[k].employeeId == entries[k].employeeId
    ensures forall k :: 0 <= k < |r| && entries[k].id != id ==> r[k] == entries[k]
    ensures forall k :: 0 <= k < |r| && Open(r[k]) ==> Open(entries[k])
    ensures forall k :: 0 <= k < |r| && entries[k].id == id ==> r[k] == PatchEntry(entries[k], p)
  {
    Map(entries, (e: TimeEntry) => if e.id == id then PatchEntry(e, p) else e)
  }

  /** `removeEntry`: exactly the entries with that id go. */
  function RemoveEntry(entries: seq<TimeEntry>, id: string): (r: seq<TimeEntry>)
    ensures forall e :: e in r <==> e in entries && e.id != id
    ensures forall e :: multiset(r)[e] == if e.id == id then 0 else multiset(entries)[e]
  {
    Filter(entries, (e: TimeEntry) => e.id != id)
  }

  /** Editing and removing entries never opens a second shift. */
  lemma EditRemoveKeepOneOpen(entries: seq<TimeEntry>, id: string, p: EntryPatch)
    requires OneOpenEach(entries)
    ensures OneOpenEach(EditEntry(entries, id, p))
    ensures OneOpenEach(RemoveEntry(entries, id))
  {
    forall other
      ensures OpenCount(EditEntry(entries, id, p), other) <= 1
      ensures OpenCount(RemoveEntry(entries, id), other) <= 1
    {
      OpenCountNoNewOpen(entries, EditEntry(entries, id, p), other);
      OpenCountFilter(entries, (e: TimeEntry) => e.id != id, other);
    }
  }

  /** `activeClocks`: the open entries. */
  function ActiveClocks(entries: seq<TimeEntry>): (r: seq<TimeEntry>)
    ensures forall e :: e in r <==> e in entries && Open(e)
    ensures forall e :: multiset(r)[e] == if Open(e) then multiset(entries)[e] else 0
  {
    Filter(entries, (e: TimeEntry) => Open(e))
  }

  /** An employee shows as clocked in exactly when they have an open entry. */
  lemma ActiveClocksTicking(entries: seq<TimeEntry>, employeeId: string)
    ensures HasOpen(entries, employeeId) <==> exists a :: a in ActiveClocks(entries) && a.employeeId == employeeId
  {
    if HasOpen(entries, employeeId) {
      var k :| 0 <= k < |entries| && entries[k].employeeId == employeeId && Open(entries[k]);
      assert entries[k] in ActiveClocks(entries);
    }
  }

  // ---------------------------------------------------------------- filter and sort

  /** The range filter: from the first day's midnight to the last millisecond of
      the last day, and the chosen employee unless the filter is "all". */
  predicate Selected(e: TimeEntry, fromDay: Time, toDay: Time, empFilter: string) {
    fromDay <= e.start <= toDay + 86399999 && (empFilter == "all" || e.employeeId == empFilter)
  }

  predicate NewestFirst(xs: seq<TimeEntry>) {
    forall i, j :: 0 <= i < j < |xs| ==> xs[i].start >= xs[j].start
  }

  /** Places `x` before the first entry that does not start later. */
  function Insert(x: TimeEntry, ys: seq<TimeEntry>): (r: seq<TimeEntry>)
    requires NewestFirst(ys)
    ensures NewestFirst(r)
    ensures multiset(r) == multiset(ys) + multiset{x}
    ensures forall z :: z in r ==> z == x || z in ys
  {
    if ys == [] then [x]
    else if ys[0].start <= x.start then
      PrependNewest(x, ys);
      [x] + ys
    else
      var rest := Insert(x, ys[1..]);
      InsertBehind(x, ys, rest);
      [ys[0]] + rest
  }

  /** An entry older than the first goes behind it. */
  lemma InsertBehind(x: TimeEntry, ys: seq<TimeEntry>, rest: seq<TimeEntry>)
    requires NewestFirst(ys) && ys != [] && x.start < ys[0].start
    requires NewestFirst(rest) && multiset(rest) == multiset(ys[1..]) + multiset{x}
    requires forall z :: z in rest ==> z == x || z in ys[1..]
    ensures NewestFirst([ys[0]] + rest)
    ensures multiset([ys[0]] + rest) == multiset(ys) + multiset{x}
    ensures forall z :: z in [ys[0]] + rest ==> z == x || z in ys
  {
    assert ys == [ys[0]] + ys[1..];
    forall z | z in rest
      ensures z.start <= ys[0].start
    {
      if z != x {
        var k :| 0 <= k < |ys[1..]| && ys[1..][k] == z;
        assert ys[k + 1] == z;
      }
    }
    PrependNewest(ys[0], rest);
  }

  lemma PrependNewest(y: TimeEntry, rest: seq<TimeEntry>)
    requires NewestFirst(rest)
    requires forall z :: z in rest ==> z.start <= y.start
    ensures NewestFirst([y] + rest)
  {
    var r := [y] + rest;
    forall i, j | 0 <= i < j < |r|
      ensures r[i].start >= r[j].start
    {
      assert r[j] == rest[j - 1];
      if i > 0 {
        assert r[i] == rest[i - 1];
      }
    }
  }

  /** `sort((a, b) => b.start - a.start)`. */
  function SortNewestFirst(xs: seq<TimeEntry>): (r: seq<TimeEntry>)
    ensures NewestFirst(r)
    ensures multiset(r) == multiset(xs)
  {
    if xs == [] then []
    else
      assert xs == [xs[0]] + xs[1..];
      Insert(xs[0], SortNewestFirst(xs[1..]))
  }

  /** `filteredEntries`: the selected entries, newest first. */
  function FilteredEntries(entries: seq<TimeEntry>, fromDay: Time, toDay: Time, empFilter: string): (r: seq<TimeEntry>)
    ensures NewestFirst(r)
    ensures multiset(r) == multiset(Filter(entries, (e: TimeEntry) => Selected(e, fromDay, toDay, empFilter)))
    ensures forall e :: e in r <==> e in entries && Selected(e, fromDay, toDay, empFilter)
  {
    var keep := (e: TimeEntry) => Selected(e, fromDay, toDay, empFilter);
    var kept := Filter(entries, keep);
    var r := SortNewestFirst(kept);
    SameMembers(r, kept);
    assert forall e :: keep(e) == Selected(e, fromDay, toDay, empFilter);
    r
  }

  /** Sequences with the same multiset hold the same elements. */
  lemma SameMembers<T>(a: seq<T>, b: seq<T>)
    requires multiset(a) == multiset(b)
    ensures forall x :: x in a <==> x in b
  {
    forall x
      ensures x in a <==> x in b
    {
      assert x in a <==> x in multiset(a);
    }
  }

  // ---------------------------------------------------------------- summary

  /** `employees.find(x => x.id === id)`. */
  function FindEmployee(employees: seq<Employee>, id: string): (r: Option<Employee>)
    ensures r.Some? ==> r.value in employees && r.value.id == id
    ensures r.None? <==> forall k :: 0 <= k < |employees| ==> employees[k].id != id
    ensures r.Some? ==> exists k :: 0 <= k < |employees| && employees[k] == r.value
                                   && forall j :: 0 <= j < k ==> employees[j].id != id
  {
    if employees == [] then None
    else if employees[0].id == id then Some(employees[0])
    else
      assert forall k :: 1 <= k < |employees| ==> employees[k] == employees[1..][k - 1];
      var r := FindEmployee(employees[1..], id);
      FirstFoundShifts(employees, id, r);
      r
  }

  /** A first match in the tail is a first match in the list when the head does not match. */
  lemma FirstFoundShifts(employees: seq<Employee>, id: string, r: Option<Employee>)
    requires employees != [] && employees[0].id != id
    requires r.Some? ==> exists k :: 0 <= k < |employees[1..]| && employees[1..][k] == r.value
                                     && forall j :: 0 <= j < k ==> employees[1..][j].id != id
    ensures r.Some? ==> exists k :: 0 <= k < |employees| && employees[k] == r.value
                                   && forall j :: 0 <= j < k ==> employees[j].id != id
  {
    if r.Some? {
      var k :| 0 <= k < |employees[1..]| && employees[1..][k] == r.value
               && forall j :: 0 <= j < k ==> employees[1..][j].id != id;
      assert employees[k + 1] == r.value;
      forall j | 0 <= j < k + 1
        ensures employees[j].id != id
      {
        if j > 0 {
          assert employees[j] == employees[1..][j - 1];
        }
      }
    }
  }

  /** `emp?.hourly ?? 0`: the employee's rate, 0 for an unknown employee. */
  function RateOf(employees: seq<Employee>, id: string): real {
    var emp := FindEmployee(employees, id);
    if emp.Some? then emp.value.hourly else 0.0
  }

  /** `emp?.name || "?"`: the employee's name, "?" when unknown or empty. */
  function NameOf(employees: seq<Employee>, id: string): string {
    var emp := FindEmployee(employees, id);
    if emp.Some? && emp.value.name != "" then emp.value.name else "?"
  }

  function EntryHours(e: TimeEntry, now: Time): real {
    DurationHours(e.start, e.end, now)
  }

  /** The sum of `f` over the entries, added left to right. */
  function SumOver(xs: seq<TimeEntry>, f: TimeEntry -> real): real {
    if xs == [] then 0.0 else SumOver(xs[..|xs| - 1], f) + f(xs[|xs| - 1])
  }

  /** The hours an entry adds to the employee's record. */
  function HoursFn(id: string, now: Time): TimeEntry -> real {
    (e: TimeEntry) => if e.employeeId == id then EntryHours(e, now) else 0.0
  }

  /** The pay an entry adds to the employee's record: `hours * rate`. */
  function PayFn(id: string, employees: seq<Employee>, now: Time): TimeEntry -> real {
    (e: TimeEntry) => if e.employeeId == id then EntryHours(e, now) * RateOf(employees, id) else 0.0
  }

  /** The hours of the employee's entries among `xs`. */
  function HoursOf(xs: seq<TimeEntry>, id: string, now: Time): real {
    SumOver(xs, HoursFn(id, now))
  }

  /** The pay of the employee's entries among `xs`, entry by entry. */
  function AmountOf(xs: seq<TimeEntry>, id: string, employees: seq<Employee>, now: Time): real {
    SumOver(xs, PayFn(id, employees, now))
  }

  lemma SumOverStep(xs: seq<TimeEntry>, i: nat, f: TimeEntry -> real)
    requires i < |xs|
    ensures SumOver(xs[..i + 1], f) == SumOver(xs[..i], f) + f(xs[i])
  {
    assert xs[..i + 1][..i] == xs[..i];
  }

  lemma {:induction false} SumOverZero(xs: seq<TimeEntry>, f: TimeEntry -> real)
    requires forall k :: 0 <= k < |xs| ==> f(xs[k]) == 0.0
    ensures SumOver(xs, f) == 0.0
  {
    if xs != [] {
      SumOverZero(xs[..|xs| - 1], f);
    }
  }

  /** Scaling every term scales the sum. */
  lemma {:induction false} SumOverScaled(xs: seq<TimeEntry>, f: TimeEntry -> real, g: TimeEntry -> real, r: real)
    requires forall e :: g(e) == r * f(e)
    ensures SumOver(xs, g) == r * SumOver(xs, f)
  {
    if xs != [] {
      var front := xs[..|xs| - 1];
      SumOverScaled(front, f, g, r);
      ScaledSum(SumOver(xs, g), SumOver(xs, f), SumOver(front, g), SumOver(front, f), r, f(xs[|xs| - 1]));
    }
  }

  lemma ScaledSum(total: real, sum: real, total0: real, sum0: real, r: real, x: real)
    requires total0 == r * sum0 && total == total0 + r * x && sum == sum0 + x
    ensures total == r * sum
  {
    assert r * (sum0 + x) == r * sum0 + r * x;
  }

  /** The employees of `xs` in the order they first appear: the key order of the `Map`. */
  function FirstSeen(xs: seq<TimeEntry>): (ids: seq<string>)
    ensures forall id :: id in ids <==> exists k :: 0 <= k < |xs| && xs[k].employeeId == id
    ensures forall i, j :: 0 <= i < j < |ids| ==> ids[i] != ids[j]
  {
    if xs == [] then []
    else
      var front := FirstSeen(xs[..|xs| - 1]);
      var id := xs[|xs| - 1].employeeId;
      assert forall k :: 0 <= k < |xs| - 1 ==> xs[..|xs| - 1][k] == xs[k];
      if id in front then front else front + [id]
  }

  /** The running record the loop keeps per employee. */
  datatype Tally = Tally(hours: real, amount: real, name: string, rate: real)

  datatype SummaryRow = SummaryRow(employeeId: string, hours: real, amount: real, name: string, rate: real)

  datatype Totals = Totals(hours: real, amount: real)

  /** What the loop holds for an employee after the entries `xs`. */
  function TallyOf(xs: seq<TimeEntry>, employees: seq<Employee>, now: Time, id: string): Tally {
    Tally(HoursOf(xs, id, now), AmountOf(xs, id, employees, now), NameOf(employees, id), RateOf(employees, id))
  }

  /** `({ employeeId, ...v })`. */
  function RowOf(id: string, t: Tally): SummaryRow {
    SummaryRow(id, t.hours, t.amount, t.name, t.rate)
  }

  /** The summary rows: one per employee of the entries, in first-seen order. */
  function SummaryRows(xs: seq<TimeEntry>, employees: seq<Employee>, now: Time): seq<SummaryRow> {
    Map(FirstSeen(xs), (id: string) => RowOf(id, TallyOf(xs, employees, now, id)))
  }

  /** The rows name each employee of the entries exactly once. */
  lemma SummaryRowsCover(xs: seq<TimeEntry>, employees: seq<Employee>, now: Time)
    ensures var rows := SummaryRows(xs, employees, now);
      && (forall i, j :: 0 <= i < j < |rows| ==> rows[i].employeeId != rows[j].employeeId)
      && (forall k :: 0 <= k < |rows| ==> exists j :: 0 <= j < |xs| && xs[j].employeeId == rows[k].employeeId)
      && (forall j :: 0 <= j < |xs| ==> exists k :: 0 <= k < |rows| && rows[k].employeeId == xs[j].employeeId)
  {
    RowIds(xs, employees, now);
    RowsNameFirstSeen(xs, SummaryRows(xs, employees, now));
  }

  /** Rows keyed by the first-seen order name each employee of the entries once. */
  lemma RowsNameFirstSeen(xs: seq<TimeEntry>, rows: seq<SummaryRow>)
    requires |rows| == |FirstSeen(xs)| && forall k :: 0 <= k < |rows| ==> rows[k].employeeId == FirstSeen(xs)[k]
    ensures forall i, j :: 0 <= i < j < |rows| ==> rows[i].employeeId != rows[j].employeeId
    ensures forall k :: 0 <= k < |rows| ==> exists j :: 0 <= j < |xs| && xs[j].employeeId == rows[k].employeeId
    ensures forall j :: 0 <= j < |xs| ==> exists k :: 0 <= k < |rows| && rows[k].employeeId == xs[j].employeeId
  {
    var ids := FirstSeen(xs);
    forall k | 0 <= k < |rows|
      ensures exists j :: 0 <= j < |xs| && xs[j].employeeId == rows[k].employeeId
    {
      assert ids[k] in ids;
    }
    forall j | 0 <= j < |xs|
      ensures exists k :: 0 <= k < |rows| && rows[k].employeeId == xs[j].employeeId
    {
      assert xs[j].employeeId in ids;
      var k :| 0 <= k < |ids| && ids[k] == xs[j].employeeId;
      assert rows[k].employeeId == xs[j].employeeId;
    }
  }

  lemma RowIds(xs: seq<TimeEntry>, employees: seq<Employee>, now: Time)
    ensures var rows, ids := SummaryRows(xs, employees, now), FirstSeen(xs);
      |rows| == |ids| && forall k :: 0 <= k < |rows| ==> rows[k].employeeId == ids[k]
  {
  }

  /** `rows.reduce((a, b) => ({hours: a.hours + b.hours, amount: a.amount + b.amount}), {hours: 0, amount: 0})`. */
  function TotalsOf(rows: seq<SummaryRow>): Totals {
    if rows == [] then Totals(0.0, 0.0)
    else
      var t := TotalsOf(rows[..|rows| - 1]);
      Totals(t.hours + rows[|rows| - 1].hours, t.amount + rows[|rows| - 1].amount)
  }

  /** `summary`: one pass over the filtered entries, accumulating per employee
      in a key-ordered map, then the rows and their totals. */
  method Summarize(filtered: seq<TimeEntry>, employees: seq<Employee>, now: Time) returns (rows: seq<SummaryRow>, totals: Totals)
    ensures rows == SummaryRows(filtered, employees, now)
    ensures totals == TotalsOf(rows)
  {
    var order: seq<string> := [];
    var byEmp: map<string, Tally> := map[];
    for i := 0 to |filtered|
      invariant order == FirstSeen(filtered[..i])
      invariant forall id :: id in byEmp <==> id in order
      invariant forall id :: id in byEmp ==> byEmp[id] == TallyOf(filtered[..i], employees, now, id)
    {
      var e := filtered[i];
      var emp := FindEmployee(employees, e.employeeId);
      var hours := EntryHours(e, now);
      var rate := RateOf(employees, e.employeeId);
      var amt := hours * rate;
      var cur := if e.employeeId in byEmp then byEmp[e.employeeId]
        else Tally(0.0, 0.0, if emp.Some? && emp.value.name != "" then emp.value.name else "?", rate);
      assert cur == TallyOf(filtered[..i], employees, now, e.employeeId) by {
        if e.employeeId !in byEmp {
          FirstSeenStep(filtered, i);
          TallyAbsent(filtered[..i], e.employeeId, employees, now);
        }
      }
      ghost var before := cur;
      cur := Tally(cur.hours + hours, cur.amount + amt, if emp.Some? && emp.value.name != "" then emp.value.name else cur.name, rate);
      TallyNext(filtered, i, employees, now, before, hours, rate, cur);
      FirstSeenStep(filtered, i);
      if e.employeeId !in byEmp {
        order := order + [e.employeeId];
      }
      ghost var was := byEmp;
      byEmp := byEmp[e.employeeId := cur];
      forall id | id in byEmp
        ensures byEmp[id] == TallyOf(filtered[..i + 1], employees, now, id)
      {
        if id != e.employeeId {
          assert byEmp[id] == was[id];
          TallyOthers(filtered, i, employees, now, id);
        }
      }
    }
    assert filtered[..|filtered|] == filtered;
    rows := RowsOf(order, byEmp);
    RowsOfTallies(filtered, employees, now, byEmp);
    totals := TotalsOf(rows);
  }

  /** `Object.entries(byEmp).map(([employeeId, v]) => ({ employeeId, ...v }))`, in key order. */
  function RowsOf(order: seq<string>, byEmp: map<string, Tally>): seq<SummaryRow>
    requires forall id :: id in order ==> id in byEmp
  {
    seq(|order|, k requires 0 <= k < |order| => RowOf(order[k], byEmp[order[k]]))
  }

  /** The rows read off the finished map are the summary rows. */
  lemma RowsOfTallies(xs: seq<TimeEntry>, employees: seq<Employee>, now: Time, byEmp: map<string, Tally>)
    requires forall id :: id in byEmp <==> id in FirstSeen(xs)
    requires forall id :: id in byEmp ==> byEmp[id] == TallyOf(xs, employees, now, id)
    ensures RowsOf(FirstSeen(xs), byEmp) == SummaryRows(xs, employees, now)
  {
    var order := FirstSeen(xs);
    var a, b := RowsOf(order, byEmp), SummaryRows(xs, employees, now);
    assert |a| == |b|;
    forall k | 0 <= k < |a|
      ensures a[k] == b[k]
    {
      var id := order[k];
      assert id in order;
      assert a[k] == RowOf(id, byEmp[id]);
      assert b[k] == RowOf(id, TallyOf(xs, employees, now, id));
    }
  }

  /** One more entry adds its hours and pay to its own employee's record ... */
  lemma TallyNext(xs: seq<TimeEntry>, i: nat, employees: seq<Employee>, now: Time, was: Tally, hours: real, rate: real, next: Tally)
    requires i < |xs| && was == TallyOf(xs[..i], employees, now, xs[i].employeeId)
    requires hours == EntryHours(xs[i], now) && rate == RateOf(employees, xs[i].employeeId)
    requires next.hours == was.hours + hours && next.amount == was.amount + hours * rate
    requires next.name == was.name && next.rate == was.rate
    ensures next == TallyOf(xs[..i + 1], employees, now, xs[i].employeeId)
  {
    var id := xs[i].employeeId;
    SumOverStep(xs, i, HoursFn(id, now));
    SumOverStep(xs, i, PayFn(id, employees, now));
  }

  /** ... and leaves every other employee's record as it was. */
  lemma TallyOthers(xs: seq<TimeEntry>, i: nat, employees: seq<Employee>, now: Time, id: string)
    requires i < |xs| && id != xs[i].employeeId
    ensures TallyOf(xs[..i + 1], employees, now, id) == TallyOf(xs[..i], employees, now, id)
  {
    SumOverStep(xs, i, HoursFn(id, now));
    SumOverStep(xs, i, PayFn(id, employees, now));
  }

  /** A new employee goes last in the key order; a known one leaves it as it was. */
  lemma FirstSeenStep(xs: seq<TimeEntry>, i: nat)
    requires i < |xs|
    ensures FirstSeen(xs[..i + 1])
         == if xs[i].employeeId in FirstSeen(xs[..i]) then FirstSeen(xs[..i]) else FirstSeen(xs[..i]) + [xs[i].employeeId]
    ensures xs[i].employeeId !in FirstSeen(xs[..i]) ==> forall k :: 0 <= k < i ==> xs[..i][k].employeeId != xs[i].employeeId
  {
    assert xs[..i + 1][..i] == xs[..i];
  }

  /** An employee without entries has no hours and no pay. */
  lemma TallyAbsent(xs: seq<TimeEntry>, id: string, employees: seq<Employee>, now: Time)
    requires forall k :: 0 <= k < |xs| ==> xs[k].employeeId != id
    ensures HoursOf(xs, id, now) == 0.0 && AmountOf(xs, id, employees, now) == 0.0
  {
    SumOverZero(xs, HoursFn(id, now));
    SumOverZero(xs, PayFn(id, employees, now));
  }

  /** Each row's pay is its rate times its hours. */
  lemma AmountIsRateTimesHours(xs: seq<TimeEntry>, id: string, employees: seq<Employee>, now: Time)
    ensures AmountOf(xs, id, employees, now) == RateOf(employees, id) * HoursOf(xs, id, now)
  {
    var r := RateOf(employees, id);
    var f, g := HoursFn(id, now), PayFn(id, employees, now);
    forall e
      ensures g(e) == r * f(e)
    {
      if e.employeeId == id {
        var h := EntryHours(e, now);
        assert g(e) == h * r && f(e) == h;
      }
    }
    SumOverScaled(xs, f, g, r);
  }

  /** An employee missing from the list shows as "?" with rate 0 and no pay. */
  lemma SummaryUnknownEmployee(xs: seq<TimeEntry>, employees: seq<Employee>, now: Time, k: nat)
    requires k < |SummaryRows(xs, employees, now)|
    requires forall j :: 0 <= j < |employees| ==> employees[j].id != SummaryRows(xs, employees, now)[k].employeeId
    ensures var row := SummaryRows(xs, employees, now)[k];
      row.name == "?" && row.rate == 0.0 && row.amount == 0.0
  {
    var id := FirstSeen(xs)[k];
    var row := SummaryRows(xs, employees, now)[k];
    assert row == RowOf(id, TallyOf(xs, employees, now, id));
    assert FindEmployee(employees, id).None?;
    AmountIsRateTimesHours(xs, id, employees, now);
  }

  // ---------------------------------------------------------------- export

  const ExportHeader: seq<string> := ["Employee", "Role", "Hourly", "Start", "End", "Hours", "Amount", "Note"]

  /** The eight fields `exportCSV` writes for an entry of the employee `emp`
      (`None` when unknown) with the given hours and pay; `fmt` stands for
      `toLocaleString` and `show` for JavaScript's number-to-text conversion. */
  function ExportFields(emp: Option<Employee>, e: TimeEntry, hours: real, amount: real, fmt: Time -> string, show: real -> string): seq<string> {
    [ if emp.Some? then emp.value.name else "",
      if emp.Some? then emp.value.role else "",
      show(if emp.Some? then emp.value.hourly else 0.0),
      fmt(e.start),
      if e.end.Some? then fmt(e.end.value) else "",
      Fixed2(hours),
      Fixed2(amount),
      ReplaceChar(e.note, ',', ';') ]
  }

  /** The exported line of one entry: its fields joined by commas, the pay being
      the hourly rate (0 for an unknown employee) times the hours. */
  function ExportLine(e: TimeEntry, employees: seq<Employee>, now: Time, fmt: Time -> string, show: real -> string): string {
    var emp := FindEmployee(employees, e.employeeId);
    var hours := DurationHours(e.start, e.end, now);
    Join(ExportFields(emp, e, hours, ExportAmount(emp, hours), fmt, show), ",")
  }

  /** `(emp?.hourly || 0) * hours`. */
  function ExportAmount(emp: Option<Employee>, hours: real): real {
    (if emp.Some? then emp.value.hourly else 0.0) * hours
  }

  function LineOf(employees: seq<Employee>, now: Time, fmt: Time -> string, show: real -> string): TimeEntry -> string {
    (e: TimeEntry) => ExportLine(e, employees, now, fmt, show)
  }

  function ExportLines(xs: seq<TimeEntry>, employees: seq<Employee>, now: Time, fmt: Time -> string, show: real -> string): seq<string> {
    Map(xs, LineOf(employees, now, fmt, show))
  }

  /** The exported file: the header, then one line per filtered entry. */
  function ExportText(xs: seq<TimeEntry>, employees: seq<Employee>, now: Time, fmt: Time -> string, show: real -> string): string {
    Join([Join(ExportHeader, ",")] + ExportLines(xs, employees, now, fmt, show), "\n")
  }

  /** `exportCSV`: push the header, then one line per filtered entry, and join. */
  method ExportCsv(filtered: seq<TimeEntry>, employees: seq<Employee>, now: Time, fmt: Time -> string, show: real -> string)
    returns (text: string)
    ensures text == ExportText(filtered, employees, now, fmt, show)
  {
    var header := Join(ExportHeader, ",");
    var lines := [header];
    for i := 0 to |filtered|
      invariant lines == [header] + ExportLines(filtered[..i], employees, now, fmt, show)
    {
      var line := ExportLine(filtered[i], employees, now, fmt, show);
      MapSnoc(filtered, i, LineOf(employees, now, fmt, show));
      AppendAssoc([header], ExportLines(filtered[..i], employees, now, fmt, show), [line]);
      lines := lines + [line];
    }
    assert filtered[..|filtered|] == filtered;
    text := Join(lines, "\n");
  }

  /** The note field never holds a comma, and when the name, role, times and
      numbers print without commas, a line splits back into its eight fields. */
  lemma FieldsSplitBack(emp: Option<Employee>, e: TimeEntry, hours: real, amount: real, fmt: Time -> string, show: real -> string)
    requires emp.Some? ==> ',' !in emp.value.name && ',' !in emp.value.role
    requires forall t :: ',' !in fmt(t)
    requires forall x :: ',' !in show(x)
    ensures var fields := ExportFields(emp, e, hours, amount, fmt, show);
      && |fields| == 8
      && fields[7] == ReplaceChar(e.note, ',', ';') && ',' !in fields[7]
      && SplitOn(Join(fields, ","), ',') == fields
  {
    var fields := ExportFields(emp, e, hours, amount, fmt, show);
    Fixed2Excludes(hours, ',');
    Fixed2Excludes(amount, ',');
    var note := ReplaceChar(e.note, ',', ';');
    assert forall j :: 0 <= j < |note| ==> note[j] != ',';
    assert ',' !in fields[0] && ',' !in fields[1] && ',' !in fields[2] && ',' !in fields[3];
    if e.end.Some? {
      var t := e.end.value;
      assert ',' !in fmt(t);
    }
    assert ',' !in fields[4] && ',' !in fields[5] && ',' !in fields[6] && ',' !in fields[7];
    SplitJoin(fields, ',');
  }

  /** An exported line splits on commas back into the fields of its entry, when
      no employee's name or role and no printed time or number holds a comma. */
  lemma ExportLineFields(e: TimeEntry, employees: seq<Employee>, now: Time, fmt: Time -> string, show: real -> string)
    requires forall k :: 0 <= k < |employees| ==> ',' !in employees[k].name && ',' !in employees[k].role
    requires forall t :: ',' !in fmt(t)
    requires forall x :: ',' !in show(x)
    ensures var emp, hours := FindEmployee(employees, e.employeeId), DurationHours(e.start, e.end, now);
      var fields := ExportFields(emp, e, hours, ExportAmount(emp, hours), fmt, show);
      && SplitOn(ExportLine(e, employees, now, fmt, show), ',') == fields
      && fields[7] == ReplaceChar(e.note, ',', ';') && ',' !in fields[7]
  {
    var emp, hours := FindEmployee(employees, e.employeeId), DurationHours(e.start, e.end, now);
    if emp.Some? {
      var j :| 0 <= j < |employees| && employees[j] == emp.value;
    }
    FieldsSplitBack(emp, e, hours, ExportAmount(emp, hours), fmt, show);
  }

  /** `toLocaleString` in a locale that writes "date, time" puts a comma inside the
      Start and End fields, and the line then splits into more parts than the
      header: the End column holds the start's time of day and every later column
      is shifted. */
  lemma LocaleCommaShiftsColumns(e: TimeEntry, employees: seq<Employee>, now: Time, fmt: Time -> string,
                                 date: Time -> string, clock: Time -> string, show: real -> string)
    requires forall k :: 0 <= k < |employees| ==> ',' !in employees[k].name && ',' !in employees[k].role
    requires forall t :: fmt(t) == date(t) + "," + clock(t)
    requires forall t :: ',' !in date(t) && ',' !in clock(t)
    requires forall x :: ',' !in show(x)
    ensures var parts := SplitOn(ExportLine(e, employees, now, fmt, show), ',');
      && |parts| == (if e.end.Some? then 10 else 9) && |parts| > |ExportHeader|
      && parts[3] == date(e.start) && parts[4] == clock(e.start)
      && (e.end.Some? ==> parts[5] == date(e.end.value) && parts[6] == clock(e.end.value))
      && (e.end.None? ==> parts[5] == "")
  {
    var emp, hours := FindEmployee(employees, e.employeeId), DurationHours(e.start, e.end, now);
    if emp.Some? {
      var j :| 0 <= j < |employees| && employees[j] == emp.value;
    }
    var fields := ExportFields(emp, e, hours, ExportAmount(emp, hours), fmt, show);
    OtherFieldsCommaFree(emp, e, hours, ExportAmount(emp, hours), fmt, show);
    assert ExportLine(e, employees, now, fmt, show) == Join(fields, ",");
    var s := e.start;
    assert fields[3] == date(s) + "," + clock(s);
    if e.end.Some? {
      var t := e.end.value;
      assert fields[4] == date(t) + "," + clock(t);
      SplitTwoDates(fields, date(s), clock(s), date(t), clock(t));
    } else {
      SplitOneDate(fields, date(s), clock(s));
    }
  }

  /** The fields other than Start and End hold no comma when the name, role and
      printed numbers hold none. */
  lemma OtherFieldsCommaFree(emp: Option<Employee>, e: TimeEntry, hours: real, amount: real, fmt: Time -> string, show: real -> string)
    requires emp.Some? ==> ',' !in emp.value.name && ',' !in emp.value.role
    requires forall x :: ',' !in show(x)
    ensures var fields := ExportFields(emp, e, hours, amount, fmt, show);
      && ',' !in fields[0] && ',' !in fields[1] && ',' !in fields[2]
      && ',' !in fields[5] && ',' !in fields[6] && ',' !in fields[7]
  {
    Fixed2Excludes(hours, ',');
    Fixed2Excludes(amount, ',');
    var note := ReplaceChar(e.note, ',', ';');
    assert forall j :: 0 <= j < |note| ==> note[j] != ',';
  }

  /** Eight comma-free fields but the Start and End ones, each a date, a comma and a time. */
  lemma SplitTwoDates(fields: seq<string>, d: string, c: string, d': string, c': string)
    requires |fields| == 8 && fields[3] == d + "," + c && fields[4] == d' + "," + c'
    requires ',' !in d && ',' !in c && ',' !in d' && ',' !in c'
    requires ',' !in fields[0] && ',' !in fields[1] && ',' !in fields[2]
    requires ',' !in fields[5] && ',' !in fields[6] && ',' !in fields[7]
    ensures SplitOn(Join(fields, ","), ',') == fields[..3] + [d, c, d', c'] + fields[5..]
    ensures var parts := SplitOn(Join(fields, ","), ',');
      |parts| == 10 && parts[3] == d && parts[4] == c && parts[5] == d' && parts[6] == c'
  {
    JoinSplitPart(fields, 4, d', c', ",");
    var once := fields[..4] + [d', c'] + fields[5..];
    JoinSplitPart(once, 3, d, c, ",");
    var parts := fields[..3] + [d, c, d', c'] + fields[5..];
    assert once[..3] + [d, c] + once[4..] == parts;
    assert forall k :: 0 <= k < |parts| ==> ',' !in parts[k] by {
      forall k | 0 <= k < |parts|
        ensures ',' !in parts[k]
      {
        if k < 3 { assert parts[k] == fields[k]; }
        else if k >= 7 { assert parts[k] == fields[k - 2]; }
      }
    }
    SplitJoin(parts, ',');
  }

  /** The same with an empty End field. */
  lemma SplitOneDate(fields: seq<string>, d: string, c: string)
    requires |fields| == 8 && fields[3] == d + "," + c
    requires ',' !in d && ',' !in c
    requires ',' !in fields[0] && ',' !in fields[1] && ',' !in fields[2] && ',' !in fields[4]
    requires ',' !in fields[5] && ',' !in fields[6] && ',' !in fields[7]
    ensures SplitOn(Join(fields, ","), ',') == fields[..3] + [d, c] + fields[4..]
    ensures var parts := SplitOn(Join(fields, ","), ',');
      |parts| == 9 && parts[3] == d && parts[4] == c && parts[5] == fields[4]
  {
    JoinSplitPart(fields, 3, d, c, ",");
    var parts := fields[..3] + [d, c] + fields[4..];
    assert forall k :: 0 <= k < |parts| ==> ',' !in parts[k] by {
      forall k | 0 <= k < |parts|
        ensures ',' !in parts[k]
      {
        if k < 3 { assert parts[k] == fields[k]; }
        else if k >= 5 { assert parts[k] == fields[k - 1]; }
      }
    }
    SplitJoin(parts, ',');
  }

  /** When nothing prints a line break, the file reads back as the header and
      one line per filtered entry, in order. */
  lemma ExportTextLines(xs: seq<TimeEntry>, employees: seq<Employee>, now: Time, fmt: Time -> string, show: real -> string)
    requires forall k :: 0 <= k < |employees| ==> '\n' !in employees[k].name && '\n' !in employees[k].role
    requires forall k :: 0 <= k < |xs| ==> '\n' !in xs[k].note
    requires forall t :: '\n' !in fmt(t)
    requires forall x :: '\n' !in show(x)
    ensures SplitOn(ExportText(xs, employees, now, fmt, show), '\n') == [Join(ExportHeader, ",")] + ExportLines(xs, employees, now, fmt, show)
    ensures |SplitOn(ExportText(xs, employees, now, fmt, show), '\n')| == 1 + |xs|
  {
    var lines := ExportLines(xs, employees, now, fmt, show);
    var all := [Join(ExportHeader, ",")] + lines;
    ExportHeaderOneLine();
    forall k | 0 <= k < |xs|
      ensures '\n' !in lines[k]
    {
      ExportLineOneLine(xs[k], employees, now, fmt, show);
    }
    assert forall k :: 0 <= k < |all| ==> '\n' !in all[k] by {
      forall k | 0 <= k < |all|
        ensures '\n' !in all[k]
      {
        if k > 0 {
          assert all[k] == lines[k - 1];
        }
      }
    }
    SplitJoin(all, '\n');
  }

  lemma ExportHeaderOneLine()
    ensures '\n' !in Join(ExportHeader, ",")
  {
    forall k | 0 <= k < |ExportHeader|
      ensures '\n' !in ExportHeader[k]
    {
      var h := ExportHeader[k];
      assert forall j :: 0 <= j < |h| ==> h[j] != '\n';
    }
    JoinExcludes(ExportHeader, ",", '\n');
  }

  lemma FieldsOneLine(emp: Option<Employee>, e: TimeEntry, hours: real, amount: real, fmt: Time -> string, show: real -> string)
    requires emp.Some? ==> '\n' !in emp.value.name && '\n' !in emp.value.role
    requires '\n' !in e.note
    requires forall t :: '\n' !in fmt(t)
    requires forall x :: '\n' !in show(x)
    ensures '\n' !in Join(ExportFields(emp, e, hours, amount, fmt, show), ",")
  {
    var fields := ExportFields(emp, e, hours, amount, fmt, show);
    Fixed2OneLine(hours);
    Fixed2OneLine(amount);
    var note := ReplaceChar(e.note, ',', ';');
    assert forall j :: 0 <= j < |note| ==> note[j] != '\n';
    assert '\n' !in fields[0] && '\n' !in fields[1] && '\n' !in fields[2] && '\n' !in fields[3];
    if e.end.Some? {
      var t := e.end.value;
      assert '\n' !in fmt(t);
    }
    assert '\n' !in fields[4] && '\n' !in fields[5] && '\n' !in fields[6] && '\n' !in fields[7];
    JoinExcludes(fields, ",", '\n');
  }

  lemma ExportLineOneLine(e: TimeEntry, employees: seq<Employee>, now: Time, fmt: Time -> string, show: real -> string)
    requires forall k :: 0 <= k < |employees| ==> '\n' !in employees[k].name && '\n' !in employees[k].role
    requires '\n' !in e.note
    requires forall t :: '\n' !in fmt(t)
    requires forall x :: '\n' !in show(x)
    ensures '\n' !in ExportLine(e, employees, now, fmt, show)
  {
    var emp, hours := FindEmployee(employees, e.employeeId), DurationHours(e.start, e.end, now);
    if emp.Some? {
      var j :| 0 <= j < |employees| && employees[j] == emp.value;
    }
    FieldsOneLine(emp, e, hours, ExportAmount(emp, hours), fmt, show);
  }
}
