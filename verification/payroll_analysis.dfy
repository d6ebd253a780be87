/// The analysis of one uploaded payroll report: the shifts grouped by employee
/// and by position, with hours and pay summed per group, chart rows rounded to
/// the cent, and overall totals and averages.
module PayrollAnalysis {
  import opened Text
  import opened PayrollImport

  /** One employee's shifts, in upload order, with their sums; the job title is
      that of the employee's first shift. */
  datatype EmployeeGroup = EmployeeGroup(name: string, totalHours: real, totalPay: real, jobTitle: string, shifts: seq<Shift>)

  /** One position's sums and the set of employees who worked it. */
  datatype PositionGroup = PositionGroup(name: string, totalHours: real, totalPay: real, employees: set<string>)

  /** A position group once its employee set is replaced by its size. */
  datatype PositionSummary = PositionSummary(name: string, totalHours: real, totalPay: real, employeeCount: nat)

  datatype EmployeeChart = EmployeeChart(name: string, horas: real, pago: real)

  datatype PositionChart = PositionChart(name: string, horas: real, pago: real, empleados: nat)

  /** The averages are NaN, here `None`, for a report without shifts. */
  datatype AnalysisTotals = AnalysisTotals(
    totalHours: real,
    totalPay: real,
    uniqueEmployees: nat,
    averageHoursPerEmployee: Option<real>,
    averagePayPerEmployee: Option<real>)

  datatype Analysis = Analysis(
    employeeData: seq<EmployeeGroup>,
    positionData: seq<PositionSummary>,
    employeeChartData: seq<EmployeeChart>,
    positionChartData: seq<PositionChart>,
    totals: AnalysisTotals)

  // ---------------------------------------------------------------- sums and filters

  function SumHours(shifts: seq<Shift>): real {
    if shifts == [] then 0.0 else SumHours(shifts[..|shifts| - 1]) + shifts[|shifts| - 1].hoursOriginal
  }

  /** The shifts of one employee, in order. */
  function ShiftsOf(data: seq<Shift>, name: string): seq<Shift> {
    if data == [] then []
    else
      var front := ShiftsOf(data[..|data| - 1], name);
      if data[|data| - 1].fullName == name then front + [data[|data| - 1]] else front
  }

  /** The shifts worked in one position, in order. */
  function ShiftsIn(data: seq<Shift>, job: string): seq<Shift> {
    if data == [] then []
    else
      var front := ShiftsIn(data[..|data| - 1], job);
      if data[|data| - 1].jobTitle == job then front + [data[|data| - 1]] else front
  }

  /** The employee names that occur in a list of shifts. */
  function Names(data: seq<Shift>): set<string> {
    if data == [] then {} else Names(data[..|data| - 1]) + {data[|data| - 1].fullName}
  }

  /** The job titles that occur in a list of shifts. */
  function Jobs(data: seq<Shift>): set<string> {
    if data == [] then {} else Jobs(data[..|data| - 1]) + {data[|data| - 1].jobTitle}
  }

  lemma SnocPrefix(data: seq<Shift>, s: Shift)
    ensures (data + [s])[..|data|] == data
  {
  }

  lemma OneShift(s: Shift)
    ensures SumHours([s]) == 0.0 + s.hoursOriginal
    ensures TotalPayment([s]) == 0.0 + s.pay
    ensures Names([s]) == {s.fullName}
  {
    assert [s][..0] == [];
  }

  // ---------------------------------------------------------------- grouping by employee

  /** `findIndex` over groups: the index of the first group whose `nameOf` is
      `name`, or `|groups|` when there is none. */
  function IndexNamed<G>(groups: seq<G>, nameOf: G -> string, name: string): (i: nat)
    ensures i <= |groups|
    ensures i < |groups| ==> nameOf(groups[i]) == name
    ensures forall k :: 0 <= k < i ==> nameOf(groups[k]) != name
  {
    if groups == [] then 0
    else if nameOf(groups[0]) == name then 0
    else 1 + IndexNamed(groups[1..], nameOf, name)
  }

  /** The index of the employee group named `name`, or `|groups|`. */
  function EmployeeIndex(groups: seq<EmployeeGroup>, name: string): (i: nat)
    ensures i <= |groups|
    ensures i < |groups| ==> groups[i].name == name
    ensures forall k :: 0 <= k < i ==> groups[k].name != name
  {
    IndexNamed(groups, (g: EmployeeGroup) => g.name, name)
  }

  /** One step of the `reduce`: the shift joins its employee's group, which is
      created at the end when the employee is new. */
  function AddToEmployees(groups: seq<EmployeeGroup>, s: Shift): seq<EmployeeGroup> {
    var i := EmployeeIndex(groups, s.fullName);
    if i == |groups| then groups + [NewEmployee(s)] else groups[i := JoinEmployee(groups[i], s)]
  }

  /** The group an employee's first shift opens. */
  function NewEmployee(s: Shift): EmployeeGroup {
    EmployeeGroup(s.fullName, 0.0 + s.hoursOriginal, 0.0 + s.pay, s.jobTitle, [s])
  }

  /** An employee group once one more of that employee's shifts is appended. */
  function JoinEmployee(g: EmployeeGroup, s: Shift): EmployeeGroup {
    g.(shifts := g.shifts + [s], totalHours := g.totalHours + s.hoursOriginal, totalPay := g.totalPay + s.pay)
  }

  /** `Object.values(employeeData)`: the groups in order of first appearance. */
  function EmployeeGroups(data: seq<Shift>): seq<EmployeeGroup> {
    if data == [] then [] else AddToEmployees(EmployeeGroups(data[..|data| - 1]), data[|data| - 1])
  }

  /** What the employee groups of `data` are: one per name that occurs, each
      holding exactly that employee's shifts in order, with their sums. */
  predicate EmployeeGroupsOf(data: seq<Shift>, groups: seq<EmployeeGroup>) {
    && EmployeesDistinct(groups)
    && EmployeesHold(data, groups)
    && EmployeesOccur(data, groups)
    && EmployeesIndexed(data, groups)
  }

  predicate EmployeesDistinct(groups: seq<EmployeeGroup>) {
    forall i, j :: 0 <= i < j < |groups| ==> groups[i].name != groups[j].name
  }

  predicate EmployeesHold(data: seq<Shift>, groups: seq<EmployeeGroup>) {
    forall i :: 0 <= i < |groups| ==> GroupHolds(data, groups[i])
  }

  predicate EmployeesOccur(data: seq<Shift>, groups: seq<EmployeeGroup>) {
    forall i :: 0 <= i < |groups| ==> groups[i].name in Names(data)
  }

  predicate EmployeesIndexed(data: seq<Shift>, groups: seq<EmployeeGroup>) {
    forall n :: n in Names(data) ==> EmployeeIndex(groups, n) < |groups|
  }

  predicate GroupHolds(data: seq<Shift>, g: EmployeeGroup) {
    && g.shifts == ShiftsOf(data, g.name)
    && g.shifts != []
    && g.jobTitle == g.shifts[0].jobTitle
    && g.totalHours == SumHours(g.shifts)
    && g.totalPay == TotalPayment(g.shifts)
  }

  lemma {:induction false} ShiftsOfAbsent(data: seq<Shift>, name: string)
    requires name !in Names(data)
    ensures ShiftsOf(data, name) == []
  {
    if data != [] {
      ShiftsOfAbsent(data[..|data| - 1], name);
    }
  }

  /** The shifts of an employee are that employee's. */
  lemma {:induction false} ShiftsOfNamed(data: seq<Shift>, name: string, k: nat)
    requires k < |ShiftsOf(data, name)|
    ensures ShiftsOf(data, name)[k].fullName == name
  {
    var front := ShiftsOf(data[..|data| - 1], name);
    if k < |front| {
      ShiftsOfNamed(data[..|data| - 1], name, k);
    }
  }

  /** Grouping by employee meets its description. */
  lemma {:induction false} EmployeeGroupsCorrect(data: seq<Shift>)
    ensures EmployeeGroupsOf(data, EmployeeGroups(data))
  {
    if data != [] {
      var n := |data| - 1;
      var front, s := data[..n], data[n];
      assert data == front + [s];
      EmployeeGroupsCorrect(front);
      AddEmployeeStep(front, EmployeeGroups(front), s);
    }
  }

  lemma {:induction false} AddEmployeeStep(data: seq<Shift>, groups: seq<EmployeeGroup>, s: Shift)
    requires EmployeeGroupsOf(data, groups)
    ensures EmployeeGroupsOf(data + [s], AddToEmployees(groups, s))
  {
    SnocPrefix(data, s);
    assert Names(data + [s]) == Names(data) + {s.fullName};
    EmployeeIndexIn(data, groups, s.fullName);
    AddEmployeeDistinct(groups, s);
    AddEmployeeHolds(data, groups, s);
    AddEmployeeOccurs(data, groups, s);
    AddEmployeeIndexed(data, groups, s);
  }

  /** With every name of the report indexed, a name has a group exactly when it occurs. */
  lemma {:induction false} EmployeeIndexIn(data: seq<Shift>, groups: seq<EmployeeGroup>, n: string)
    requires EmployeesOccur(data, groups) && EmployeesIndexed(data, groups)
    ensures EmployeeIndex(groups, n) < |groups| <==> n in Names(data)
  {
    var i := EmployeeIndex(groups, n);
    if i < |groups| {
      assert groups[i].name in Names(data);
    }
  }

  lemma {:induction false} AddEmployeeDistinct(groups: seq<EmployeeGroup>, s: Shift)
    requires EmployeesDistinct(groups)
    ensures EmployeesDistinct(AddToEmployees(groups, s))
  {
    var i := EmployeeIndex(groups, s.fullName);
    var groups' := AddToEmployees(groups, s);
    if i == |groups| {
      forall a, b | 0 <= a < b < |groups'|
        ensures groups'[a].name != groups'[b].name
      {
        if b == |groups| {
          assert groups'[a] == groups[a];
        } else {
          assert groups'[a] == groups[a] && groups'[b] == groups[b];
        }
      }
    } else {
      assert forall k :: 0 <= k < |groups| ==> groups'[k].name == groups[k].name;
    }
  }

  lemma {:induction false} AddEmployeeHolds(data: seq<Shift>, groups: seq<EmployeeGroup>, s: Shift)
    requires EmployeesDistinct(groups) && EmployeesHold(data, groups)
    requires EmployeeIndex(groups, s.fullName) == |groups| ==> s.fullName !in Names(data)
    ensures EmployeesHold(data + [s], AddToEmployees(groups, s))
  {
    var i := EmployeeIndex(groups, s.fullName);
    if i == |groups| {
      var groups' := groups + [NewEmployee(s)];
      EmployeesKept(data, s, groups);
      EmployeeOpened(data, s);
      assert forall k :: 0 <= k < |groups| ==> groups'[k] == groups[k];
    } else {
      EmployeeJoined(data, s, groups[i]);
      EmployeesOthersKept(data, groups, s, i);
    }
  }

  lemma {:induction false} AddEmployeeOccurs(data: seq<Shift>, groups: seq<EmployeeGroup>, s: Shift)
    requires EmployeesOccur(data, groups)
    requires Names(data + [s]) == Names(data) + {s.fullName}
    ensures EmployeesOccur(data + [s], AddToEmployees(groups, s))
  {
    var i := EmployeeIndex(groups, s.fullName);
    var groups' := AddToEmployees(groups, s);
    if i == |groups| {
      assert forall k :: 0 <= k < |groups| ==> groups'[k] == groups[k];
    } else {
      assert forall k :: 0 <= k < |groups| ==> groups'[k].name == groups[k].name;
    }
  }

  lemma {:induction false} AddEmployeeIndexed(data: seq<Shift>, groups: seq<EmployeeGroup>, s: Shift)
    requires EmployeesIndexed(data, groups)
    requires Names(data + [s]) == Names(data) + {s.fullName}
    ensures EmployeesIndexed(data + [s], AddToEmployees(groups, s))
  {
    var i := EmployeeIndex(groups, s.fullName);
    var groups' := AddToEmployees(groups, s);
    forall n | n in Names(data + [s])
      ensures EmployeeIndex(groups', n) < |groups'|
    {
      if i == |groups| {
        if n != s.fullName {
          EmployeeIndexPrefix(groups, groups', n);
        } else {
          assert groups'[|groups|].name == n;
        }
      } else {
        EmployeeIndexSameNames(groups, groups', n);
      }
    }
  }

  /** An employee's group does not change when another employee's shift is added. */
  lemma {:induction false} EmployeeKept(data: seq<Shift>, s: Shift, g: EmployeeGroup)
    requires GroupHolds(data, g) && g.name != s.fullName
    ensures GroupHolds(data + [s], g)
  {
    SnocPrefix(data, s);
    assert ShiftsOf(data + [s], g.name) == ShiftsOf(data, g.name);
  }

  lemma {:induction false} EmployeesKept(data: seq<Shift>, s: Shift, groups: seq<EmployeeGroup>)
    requires forall k :: 0 <= k < |groups| ==> GroupHolds(data, groups[k]) && groups[k].name != s.fullName
    ensures forall k :: 0 <= k < |groups| ==> GroupHolds(data + [s], groups[k])
  {
    forall k | 0 <= k < |groups|
      ensures GroupHolds(data + [s], groups[k])
    {
      EmployeeKept(data, s, groups[k]);
    }
  }

  /** The group opened by an employee's first shift holds that shift alone. */
  lemma {:induction false} EmployeeOpened(data: seq<Shift>, s: Shift)
    requires s.fullName !in Names(data)
    ensures GroupHolds(data + [s], NewEmployee(s))
  {
    SnocPrefix(data, s);
    ShiftsOfAbsent(data, s.fullName);
    assert ShiftsOf(data + [s], s.fullName) == [s];
    OneShift(s);
  }

  /** A further shift of an employee is appended to that employee's group. */
  lemma {:induction false} EmployeeJoined(data: seq<Shift>, s: Shift, g: EmployeeGroup)
    requires GroupHolds(data, g) && g.name == s.fullName
    ensures GroupHolds(data + [s], JoinEmployee(g, s))
  {
    SnocPrefix(data, s);
    assert ShiftsOf(data + [s], g.name) == g.shifts + [s];
    assert (g.shifts + [s])[..|g.shifts|] == g.shifts;
  }

  /** Adding a shift leaves every other employee's group as it was. */
  lemma {:induction false} EmployeesOthersKept(data: seq<Shift>, groups: seq<EmployeeGroup>, s: Shift, i: nat)
    requires i < |groups| && groups[i].name == s.fullName
    requires forall a, b :: 0 <= a < b < |groups| ==> groups[a].name != groups[b].name
    requires forall k :: 0 <= k < |groups| ==> GroupHolds(data, groups[k])
    ensures forall k :: 0 <= k < |groups| && k != i ==> GroupHolds(data + [s], groups[k])
  {
    forall k | 0 <= k < |groups| && k != i
      ensures GroupHolds(data + [s], groups[k])
    {
      EmployeeKept(data, s, groups[k]);
    }
  }

  lemma {:induction false} EmployeeIndexPrefix(groups: seq<EmployeeGroup>, longer: seq<EmployeeGroup>, n: string)
    requires |groups| <= |longer| && forall k :: 0 <= k < |groups| ==> longer[k] == groups[k]
    requires EmployeeIndex(groups, n) < |groups|
    ensures EmployeeIndex(longer, n) == EmployeeIndex(groups, n)
  {
    var i := EmployeeIndex(groups, n);
    var j := EmployeeIndex(longer, n);
    assert longer[i].name == n;
  }

  lemma {:induction false} EmployeeIndexSameNames(groups: seq<EmployeeGroup>, other: seq<EmployeeGroup>, n: string)
    requires |groups| == |other| && forall k :: 0 <= k < |groups| ==> other[k].name == groups[k].name
    ensures EmployeeIndex(other, n) == EmployeeIndex(groups, n)
  {
    var i := EmployeeIndex(groups, n);
    var j := EmployeeIndex(other, n);
    if i < |groups| { assert other[i].name == n; }
    if j < |other| { assert groups[j].name == n; }
  }

  // ---------------------------------------------------------------- grouping by position

  /** The index of the position group named `name`, or `|groups|`. */
  function PositionIndex(groups: seq<PositionGroup>, name: string): (i: nat)
    ensures i <= |groups|
    ensures i < |groups| ==> groups[i].name == name
    ensures forall k :: 0 <= k < i ==> groups[k].name != name
  {
    IndexNamed(groups, (g: PositionGroup) => g.name, name)
  }

  /** One step of the second `reduce`: the shift's hours, pay and employee join
      its position's group. */
  function AddToPositions(groups: seq<PositionGroup>, s: Shift): seq<PositionGroup> {
    var i := PositionIndex(groups, s.jobTitle);
    if i == |groups| then groups + [NewPosition(s)] else groups[i := JoinPosition(groups[i], s)]
  }

  /** The group a position's first shift opens. */
  function NewPosition(s: Shift): PositionGroup {
    PositionGroup(s.jobTitle, 0.0 + s.hoursOriginal, 0.0 + s.pay, {s.fullName})
  }

  /** A position group once one more of its shifts is added. */
  function JoinPosition(g: PositionGroup, s: Shift): PositionGroup {
    g.(totalHours := g.totalHours + s.hoursOriginal, totalPay := g.totalPay + s.pay, employees := g.employees + {s.fullName})
  }

  function PositionGroups(data: seq<Shift>): seq<PositionGroup> {
    if data == [] then [] else AddToPositions(PositionGroups(data[..|data| - 1]), data[|data| - 1])
  }

  /** What the position groups of `data` are: one per job title that occurs, with
      the sums over that position's shifts and the names of who worked them. */
  predicate PositionGroupsOf(data: seq<Shift>, groups: seq<PositionGroup>) {
    && PositionsDistinct(groups)
    && PositionsHold(data, groups)
    && PositionsOccur(data, groups)
    && PositionsIndexed(data, groups)
  }

  predicate PositionsDistinct(groups: seq<PositionGroup>) {
    forall i, j :: 0 <= i < j < |groups| ==> groups[i].name != groups[j].name
  }

  predicate PositionsHold(data: seq<Shift>, groups: seq<PositionGroup>) {
    forall i :: 0 <= i < |groups| ==> PositionHolds(data, groups[i])
  }

  predicate PositionsOccur(data: seq<Shift>, groups: seq<PositionGroup>) {
    forall i :: 0 <= i < |groups| ==> groups[i].name in Jobs(data)
  }

  predicate PositionsIndexed(data: seq<Shift>, groups: seq<PositionGroup>) {
    forall n :: n in Jobs(data) ==> PositionIndex(groups, n) < |groups|
  }

  predicate PositionHolds(data: seq<Shift>, g: PositionGroup) {
    && g.totalHours == SumHours(ShiftsIn(data, g.name))
    && g.totalPay == TotalPayment(ShiftsIn(data, g.name))
    && g.employees == Names(ShiftsIn(data, g.name))
  }

  lemma {:induction false} ShiftsInAbsent(data: seq<Shift>, job: string)
    requires job !in Jobs(data)
    ensures ShiftsIn(data, job) == []
  {
    if data != [] {
      ShiftsInAbsent(data[..|data| - 1], job);
    }
  }

  /** Grouping by position meets its description. */
  lemma {:induction false} PositionGroupsCorrect(data: seq<Shift>)
    ensures PositionGroupsOf(data, PositionGroups(data))
  {
    if data != [] {
      var n := |data| - 1;
      var front, s := data[..n], data[n];
      PositionGroupsCorrect(front);
      AddPositionStep(front, PositionGroups(front), s);
      assert data == front + [s];
    }
  }

  lemma {:induction false} AddPositionStep(data: seq<Shift>, groups: seq<PositionGroup>, s: Shift)
    requires PositionGroupsOf(data, groups)
    ensures PositionGroupsOf(data + [s], AddToPositions(groups, s))
  {
    SnocPrefix(data, s);
    assert Jobs(data + [s]) == Jobs(data) + {s.jobTitle};
    PositionIndexIn(data, groups, s.jobTitle);
    AddPositionDistinct(groups, s);
    AddPositionHolds(data, groups, s);
    AddPositionOccurs(data, groups, s);
    AddPositionIndexed(data, groups, s);
  }

  /** With every job of the report indexed, a job has a group exactly when it occurs. */
  lemma {:induction false} PositionIndexIn(data: seq<Shift>, groups: seq<PositionGroup>, n: string)
    requires PositionsOccur(data, groups) && PositionsIndexed(data, groups)
    ensures PositionIndex(groups, n) < |groups| <==> n in Jobs(data)
  {
    var i := PositionIndex(groups, n);
    if i < |groups| {
      assert groups[i].name in Jobs(data);
    }
  }

  lemma {:induction false} AddPositionDistinct(groups: seq<PositionGroup>, s: Shift)
    requires PositionsDistinct(groups)
    ensures PositionsDistinct(AddToPositions(groups, s))
  {
    var i := PositionIndex(groups, s.jobTitle);
    var groups' := AddToPositions(groups, s);
    if i == |groups| {
      forall a, b | 0 <= a < b < |groups'|
        ensures groups'[a].name != groups'[b].name
      {
        if b == |groups| {
          assert groups'[a] == groups[a];
        } else {
          assert groups'[a] == groups[a] && groups'[b] == groups[b];
        }
      }
    } else {
      assert forall k :: 0 <= k < |groups| ==> groups'[k].name == groups[k].name;
    }
  }

  lemma {:induction false} AddPositionHolds(data: seq<Shift>, groups: seq<PositionGroup>, s: Shift)
    requires PositionsDistinct(groups) && PositionsHold(data, groups)
    requires PositionIndex(groups, s.jobTitle) == |groups| ==> s.jobTitle !in Jobs(data)
    ensures PositionsHold(data + [s], AddToPositions(groups, s))
  {
    var i := PositionIndex(groups, s.jobTitle);
    if i == |groups| {
      var groups' := groups + [NewPosition(s)];
      PositionsKept(data, s, groups);
      PositionOpened(data, s);
      assert forall k :: 0 <= k < |groups| ==> groups'[k] == groups[k];
    } else {
      PositionJoined(data, s, groups[i]);
      PositionsOthersKept(data, groups, s, i);
    }
  }

  lemma {:induction false} AddPositionOccurs(data: seq<Shift>, groups: seq<PositionGroup>, s: Shift)
    requires PositionsOccur(data, groups)
    requires Jobs(data + [s]) == Jobs(data) + {s.jobTitle}
    ensures PositionsOccur(data + [s], AddToPositions(groups, s))
  {
    var i := PositionIndex(groups, s.jobTitle);
    var groups' := AddToPositions(groups, s);
    if i == |groups| {
      assert forall k :: 0 <= k < |groups| ==> groups'[k] == groups[k];
    } else {
      assert forall k :: 0 <= k < |groups| ==> groups'[k].name == groups[k].name;
    }
  }

  lemma {:induction false} AddPositionIndexed(data: seq<Shift>, groups: seq<PositionGroup>, s: Shift)
    requires PositionsIndexed(data, groups)
    requires Jobs(data + [s]) == Jobs(data) + {s.jobTitle}
    ensures PositionsIndexed(data + [s], AddToPositions(groups, s))
  {
    var i := PositionIndex(groups, s.jobTitle);
    var groups' := AddToPositions(groups, s);
    forall n | n in Jobs(data + [s])
      ensures PositionIndex(groups', n) < |groups'|
    {
      if i == |groups| {
        if n != s.jobTitle {
          PositionIndexPrefix(groups, groups', n);
        } else {
          assert groups'[|groups|].name == n;
        }
      } else {
        PositionIndexSameNames(groups, groups', n);
      }
    }
  }

  /** A position's sums do not change when a shift of another position is added. */
  lemma {:induction false} PositionKept(data: seq<Shift>, s: Shift, g: PositionGroup)
    requires PositionHolds(data, g) && g.name != s.jobTitle
    ensures PositionHolds(data + [s], g)
  {
    SnocPrefix(data, s);
    assert ShiftsIn(data + [s], g.name) == ShiftsIn(data, g.name);
  }

  lemma {:induction false} PositionsKept(data: seq<Shift>, s: Shift, groups: seq<PositionGroup>)
    requires forall k :: 0 <= k < |groups| ==> PositionHolds(data, groups[k]) && groups[k].name != s.jobTitle
    ensures forall k :: 0 <= k < |groups| ==> PositionHolds(data + [s], groups[k])
  {
    forall k | 0 <= k < |groups|
      ensures PositionHolds(data + [s], groups[k])
    {
      PositionKept(data, s, groups[k]);
    }
  }

  /** The group opened by a position's first shift holds that shift alone. */
  lemma {:induction false} PositionOpened(data: seq<Shift>, s: Shift)
    requires s.jobTitle !in Jobs(data)
    ensures PositionHolds(data + [s], NewPosition(s))
  {
    SnocPrefix(data, s);
    ShiftsInAbsent(data, s.jobTitle);
    assert ShiftsIn(data + [s], s.jobTitle) == [s];
    OneShift(s);
  }

  /** A further shift adds its hours, pay and employee to its position's group. */
  lemma {:induction false} PositionJoined(data: seq<Shift>, s: Shift, g: PositionGroup)
    requires PositionHolds(data, g) && g.name == s.jobTitle
    ensures PositionHolds(data + [s], JoinPosition(g, s))
  {
    SnocPrefix(data, s);
    var xs := ShiftsIn(data, g.name);
    assert ShiftsIn(data + [s], g.name) == xs + [s];
    assert (xs + [s])[..|xs|] == xs;
  }

  /** Adding a shift leaves every other position's group as it was. */
  lemma {:induction false} PositionsOthersKept(data: seq<Shift>, groups: seq<PositionGroup>, s: Shift, i: nat)
    requires i < |groups| && groups[i].name == s.jobTitle
    requires forall a, b :: 0 <= a < b < |groups| ==> groups[a].name != groups[b].name
    requires forall k :: 0 <= k < |groups| ==> PositionHolds(data, groups[k])
    ensures forall k :: 0 <= k < |groups| && k != i ==> PositionHolds(data + [s], groups[k])
  {
    forall k | 0 <= k < |groups| && k != i
      ensures PositionHolds(data + [s], groups[k])
    {
      PositionKept(data, s, groups[k]);
    }
  }

  lemma {:induction false} PositionIndexPrefix(groups: seq<PositionGroup>, longer: seq<PositionGroup>, n: string)
    requires |groups| <= |longer| && forall k :: 0 <= k < |groups| ==> longer[k] == groups[k]
    requires PositionIndex(groups, n) < |groups|
    ensures PositionIndex(longer, n) == PositionIndex(groups, n)
  {
    var i := PositionIndex(groups, n);
    var j := PositionIndex(longer, n);
    assert longer[i].name == n;
  }

  lemma {:induction false} PositionIndexSameNames(groups: seq<PositionGroup>, other: seq<PositionGroup>, n: string)
    requires |groups| == |other| && forall k :: 0 <= k < |groups| ==> other[k].name == groups[k].name
    ensures PositionIndex(other, n) == PositionIndex(groups, n)
  {
    var i := PositionIndex(groups, n);
    var j := PositionIndex(other, n);
    if i < |groups| { assert other[i].name == n; }
    if j < |other| { assert groups[j].name == n; }
  }

  // ---------------------------------------------------------------- the groups cover the report

  function GroupHours(groups: seq<EmployeeGroup>): real {
    if groups == [] then 0.0 else GroupHours(groups[..|groups| - 1]) + groups[|groups| - 1].totalHours
  }

  function GroupPay(groups: seq<EmployeeGroup>): real {
    if groups == [] then 0.0 else GroupPay(groups[..|groups| - 1]) + groups[|groups| - 1].totalPay
  }

  /** All shifts of all groups, group after group. */
  function GroupedShifts(groups: seq<EmployeeGroup>): seq<Shift> {
    if groups == [] then [] else GroupedShifts(groups[..|groups| - 1]) + groups[|groups| - 1].shifts
  }

  lemma {:induction false} GroupHoursUpdate(groups: seq<EmployeeGroup>, i: nat, g: EmployeeGroup)
    requires i < |groups|
    ensures GroupHours(groups[i := g]) == GroupHours(groups) - groups[i].totalHours + g.totalHours
  {
    var n := |groups| - 1;
    var updated := groups[i := g];
    if i < n {
      assert updated[..n] == groups[..n][i := g];
      GroupHoursUpdate(groups[..n], i, g);
    } else {
      assert updated[..n] == groups[..n];
    }
  }

  lemma {:induction false} GroupPayUpdate(groups: seq<EmployeeGroup>, i: nat, g: EmployeeGroup)
    requires i < |groups|
    ensures GroupPay(groups[i := g]) == GroupPay(groups) - groups[i].totalPay + g.totalPay
  {
    var n := |groups| - 1;
    var updated := groups[i := g];
    if i < n {
      assert updated[..n] == groups[..n][i := g];
      GroupPayUpdate(groups[..n], i, g);
    } else {
      assert updated[..n] == groups[..n];
    }
  }

  lemma {:induction false} GroupedShiftsUpdate(groups: seq<EmployeeGroup>, i: nat, g: EmployeeGroup)
    requires i < |groups|
    ensures multiset(GroupedShifts(groups[i := g])) + multiset(groups[i].shifts)
         == multiset(GroupedShifts(groups)) + multiset(g.shifts)
  {
    var n := |groups| - 1;
    var updated := groups[i := g];
    var front, last := GroupedShifts(groups[..n]), groups[n].shifts;
    assert GroupedShifts(groups) == front + last;
    if i < n {
      assert updated[..n] == groups[..n][i := g];
      var front' := GroupedShifts(groups[..n][i := g]);
      GroupedShiftsUpdate(groups[..n], i, g);
      assert GroupedShifts(updated) == front' + last;
      MultisetAddBoth(multiset(front'), multiset(groups[i].shifts), multiset(front), multiset(g.shifts), multiset(last));
    } else {
      assert updated[..n] == groups[..n];
      assert GroupedShifts(updated) == front + g.shifts;
    }
  }

  lemma MultisetAddBoth<T>(a: multiset<T>, b: multiset<T>, c: multiset<T>, d: multiset<T>, e: multiset<T>)
    requires a + b == c + d
    ensures (a + e) + b == (c + e) + d
  {
    assert (a + e) + b == (a + b) + e;
    assert (c + e) + d == (c + d) + e;
  }

  /** Adding a shift to the groups adds its hours to their sum. */
  lemma {:induction false} GroupHoursStep(groups: seq<EmployeeGroup>, s: Shift)
    ensures GroupHours(AddToEmployees(groups, s)) == GroupHours(groups) + s.hoursOriginal
  {
    var i := EmployeeIndex(groups, s.fullName);
    if i < |groups| {
      GroupHoursUpdate(groups, i, JoinEmployee(groups[i], s));
    } else {
      assert (groups + [NewEmployee(s)])[..|groups|] == groups;
    }
  }

  /** Adding a shift to the groups adds its pay to their sum. */
  lemma {:induction false} GroupPayStep(groups: seq<EmployeeGroup>, s: Shift)
    ensures GroupPay(AddToEmployees(groups, s)) == GroupPay(groups) + s.pay
  {
    var i := EmployeeIndex(groups, s.fullName);
    if i < |groups| {
      GroupPayUpdate(groups, i, JoinEmployee(groups[i], s));
    } else {
      assert (groups + [NewEmployee(s)])[..|groups|] == groups;
    }
  }

  /** Adding a shift to the groups adds it, once, to the shifts they hold. */
  lemma {:induction false} GroupedShiftsStep(groups: seq<EmployeeGroup>, s: Shift)
    ensures multiset(GroupedShifts(AddToEmployees(groups, s))) == multiset(GroupedShifts(groups)) + multiset{s}
  {
    var i := EmployeeIndex(groups, s.fullName);
    if i < |groups| {
      var xs := groups[i].shifts;
      GroupedShiftsUpdate(groups, i, JoinEmployee(groups[i], s));
      assert multiset(xs + [s]) == multiset(xs) + multiset{s};
      MultisetCancel(multiset(GroupedShifts(AddToEmployees(groups, s))), multiset(xs), multiset(GroupedShifts(groups)), multiset{s});
    } else {
      var groups' := groups + [NewEmployee(s)];
      assert groups'[..|groups|] == groups;
      assert GroupedShifts(groups') == GroupedShifts(groups) + [s];
    }
  }

  lemma MultisetCancel<T>(a: multiset<T>, b: multiset<T>, c: multiset<T>, d: multiset<T>)
    requires a + b == c + (b + d)
    ensures a == c + d
  {
    assert c + (b + d) == (c + d) + b;
    forall x
      ensures a[x] == (c + d)[x]
    {
      assert (a + b)[x] == ((c + d) + b)[x];
    }
  }

  /** The employee groups split the report's hours: they add up to the report's. */
  lemma {:induction false} EmployeeHoursPartition(data: seq<Shift>)
    ensures GroupHours(EmployeeGroups(data)) == SumHours(data)
  {
    if data != [] {
      var n := |data| - 1;
      EmployeeHoursPartition(data[..n]);
      GroupHoursStep(EmployeeGroups(data[..n]), data[n]);
    }
  }

  /** The employee groups split the report's pay: it adds up to the report's. */
  lemma {:induction false} EmployeePayPartition(data: seq<Shift>)
    ensures GroupPay(EmployeeGroups(data)) == TotalPayment(data)
  {
    if data != [] {
      var n := |data| - 1;
      EmployeePayPartition(data[..n]);
      GroupPayStep(EmployeeGroups(data[..n]), data[n]);
    }
  }

  /** Together the employee groups hold every shift of the report exactly once. */
  lemma {:induction false} EmployeeShiftsPartition(data: seq<Shift>)
    ensures multiset(GroupedShifts(EmployeeGroups(data))) == multiset(data)
  {
    if data != [] {
      var n := |data| - 1;
      var front, s := data[..n], data[n];
      assert data == front + [s];
      assert multiset(data) == multiset(front) + multiset{s};
      EmployeeShiftsPartition(front);
      GroupedShiftsStep(EmployeeGroups(front), s);
    }
  }

  /** One group per employee: as many groups as distinct names. */
  lemma {:induction false} EmployeeCount(data: seq<Shift>)
    ensures |EmployeeGroups(data)| == |Names(data)|
  {
    if data != [] {
      var n := |data| - 1;
      var front, s := data[..n], data[n];
      var groups := EmployeeGroups(front);
      EmployeeCount(front);
      NewNameIffNewGroup(front, s.fullName);
      assert Names(data) == Names(front) + {s.fullName};
      var i := EmployeeIndex(groups, s.fullName);
      if i == |groups| {
        assert |AddToEmployees(groups, s)| == |groups| + 1;
      } else {
        assert |AddToEmployees(groups, s)| == |groups|;
      }
    }
  }

  lemma {:induction false} NewNameIffNewGroup(data: seq<Shift>, name: string)
    ensures EmployeeIndex(EmployeeGroups(data), name) < |EmployeeGroups(data)| <==> name in Names(data)
  {
    var groups := EmployeeGroups(data);
    EmployeeGroupsCorrect(data);
    var i := EmployeeIndex(groups, name);
    if i < |groups| {
      assert groups[i].name in Names(data);
    }
  }

  // ---------------------------------------------------------------- charts and totals

  /** The chart label: names longer than 20 characters are cut to 20 and marked "...". */
  function ChartName(name: string): (r: string)
    ensures |r| <= 23
    ensures |name| <= 20 ==> r == name
    ensures |name| > 20 ==> |r| == 23 && r[..20] == name[..20] && r[20..] == "..."
  {
    if |name| > 20 then name[..20] + "..." else name
  }

  function Summaries(groups: seq<PositionGroup>): (r: seq<PositionSummary>)
    ensures |r| == |groups|
    ensures forall k :: 0 <= k < |groups| ==> r[k] == PositionSummary(groups[k].name, groups[k].totalHours, groups[k].totalPay, |groups[k].employees|)
  {
    seq(|groups|, k requires 0 <= k < |groups| =>
      PositionSummary(groups[k].name, groups[k].totalHours, groups[k].totalPay, |groups[k].employees|))
  }

  function EmployeeCharts(groups: seq<EmployeeGroup>): (r: seq<EmployeeChart>)
    ensures |r| == |groups|
    ensures forall k :: 0 <= k < |groups| ==>
      r[k] == EmployeeChart(ChartName(groups[k].name), RoundCents(groups[k].totalHours), RoundCents(groups[k].totalPay))
  {
    seq(|groups|, k requires 0 <= k < |groups| =>
      EmployeeChart(ChartName(groups[k].name), RoundCents(groups[k].totalHours), RoundCents(groups[k].totalPay)))
  }

  function PositionCharts(summaries: seq<PositionSummary>): (r: seq<PositionChart>)
    ensures |r| == |summaries|
    ensures forall k :: 0 <= k < |summaries| ==>
      r[k] == PositionChart(summaries[k].name, RoundCents(summaries[k].totalHours), RoundCents(summaries[k].totalPay), summaries[k].employeeCount)
  {
    seq(|summaries|, k requires 0 <= k < |summaries| =>
      PositionChart(summaries[k].name, RoundCents(summaries[k].totalHours), RoundCents(summaries[k].totalPay), summaries[k].employeeCount))
  }

  /** The summaries and chart rows of an analysis, read back against the report:
      each employee row is that employee's label with the hours and pay of their
      shifts rounded to the cent; each position row and summary is a job title of
      the report with the sums of its shifts and the number of distinct employees
      who worked it; and every name and job title of the report has its row. */
  lemma AnalysisChartsOf(data: seq<Shift>)
    ensures var a := AnalysisOf(data);
      && |a.employeeChartData| == |Names(data)|
      && (forall k :: 0 <= k < |a.employeeChartData| ==>
           var n := a.employeeData[k].name;
           && n in Names(data)
           && a.employeeChartData[k] == EmployeeChart(ChartName(n), RoundCents(SumHours(ShiftsOf(data, n))),
                                                      RoundCents(TotalPayment(ShiftsOf(data, n)))))
      && (forall n :: n in Names(data) ==> exists k :: 0 <= k < |a.employeeData| && a.employeeData[k].name == n)
      && |a.positionChartData| == |a.positionData|
      && (forall k :: 0 <= k < |a.positionChartData| ==>
           var j := a.positionChartData[k].name;
           && j in Jobs(data)
           && a.positionData[k] == PositionSummary(j, SumHours(ShiftsIn(data, j)), TotalPayment(ShiftsIn(data, j)),
                                                   |Names(ShiftsIn(data, j))|)
           && a.positionChartData[k] == PositionChart(j, RoundCents(SumHours(ShiftsIn(data, j))),
                                                      RoundCents(TotalPayment(ShiftsIn(data, j))), |Names(ShiftsIn(data, j))|))
      && (forall j :: j in Jobs(data) ==> exists k :: 0 <= k < |a.positionChartData| && a.positionChartData[k].name == j)
  {
    var employees, positions := EmployeeGroups(data), PositionGroups(data);
    EmployeeGroupsCorrect(data);
    PositionGroupsCorrect(data);
    EmployeeCount(data);
    forall n | n in Names(data)
      ensures exists k :: 0 <= k < |employees| && employees[k].name == n
    {
      var k := EmployeeIndex(employees, n);
      assert employees[k].name == n;
    }
    forall j | j in Jobs(data)
      ensures exists k :: 0 <= k < |positions| && positions[k].name == j
    {
      var k := PositionIndex(positions, j);
      assert positions[k].name == j;
    }
  }

  /** `parseFloat((x / unique).toFixed(2))`, NaN when there is nobody. */
  function Average(x: real, unique: nat): Option<real> {
    if unique == 0 then None else Some(RoundCents(x / unique as real))
  }

  function TotalsOf(data: seq<Shift>): AnalysisTotals {
    var hours, pay, unique := SumHours(data), TotalPayment(data), |Names(data)|;
    AnalysisTotals(RoundCents(hours), RoundCents(pay), unique, Average(hours, unique), Average(pay, unique))
  }

  /** `prepareAnalysisData(csvData)`. */
  function AnalysisOf(data: seq<Shift>): Analysis {
    var employees := EmployeeGroups(data);
    var positions := Summaries(PositionGroups(data));
    Analysis(employees, positions, EmployeeCharts(employees), PositionCharts(positions), TotalsOf(data))
  }

  /** Groups the shifts by employee with one lookup and one update per shift. */
  method GroupByEmployee(data: seq<Shift>) returns (groups: seq<EmployeeGroup>)
    ensures groups == EmployeeGroups(data)
  {
    groups := [];
    var i := 0;
    while i < |data|
      invariant 0 <= i <= |data|
      invariant groups == EmployeeGroups(data[..i])
    {
      assert data[..i + 1][..i] == data[..i];
      var s := data[i];
      var k := EmployeeIndex(groups, s.fullName);
      if k == |groups| {
        groups := groups + [NewEmployee(s)];
      } else {
        groups := groups[k := JoinEmployee(groups[k], s)];
      }
      i := i + 1;
    }
    assert data[..i] == data;
  }

  /** Groups the shifts by position with one lookup and one update per shift. */
  method GroupByPosition(data: seq<Shift>) returns (groups: seq<PositionGroup>)
    ensures groups == PositionGroups(data)
  {
    groups := [];
    var i := 0;
    while i < |data|
      invariant 0 <= i <= |data|
      invariant groups == PositionGroups(data[..i])
    {
      assert data[..i + 1][..i] == data[..i];
      var s := data[i];
      var k := PositionIndex(groups, s.jobTitle);
      if k == |groups| {
        groups := groups + [NewPosition(s)];
      } else {
        groups := groups[k := JoinPosition(groups[k], s)];
      }
      i := i + 1;
    }
    assert data[..i] == data;
  }

  /** `prepareAnalysisData`: both groupings, the charts and the totals. */
  method PrepareAnalysis(data: seq<Shift>) returns (a: Analysis)
    ensures a == AnalysisOf(data)
    ensures EmployeeGroupsOf(data, a.employeeData)
    ensures |a.employeeData| == a.totals.uniqueEmployees
  {
    var employees := GroupByEmployee(data);
    var positions := GroupByPosition(data);
    var summaries := Summaries(positions);
    a := Analysis(employees, summaries, EmployeeCharts(employees), PositionCharts(summaries), TotalsOf(data));
    EmployeeGroupsCorrect(data);
    EmployeeCount(data);
  }
}
