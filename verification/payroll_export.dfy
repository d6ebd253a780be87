/// The CSV download of an uploaded payroll report: a header, then for each
/// employee (in order of first appearance) one line per shift followed by a line
/// with that employee's totals.
module PayrollExport {
  import opened Text
  import opened PayrollHours
  import opened PayrollImport
  import opened PayrollAnalysis

  const Headers: seq<string> := [
    "Nombre Completo", "Puesto", "Tarifa por Hora", "Hora de Entrada",
    "Hora de Salida", "Horas (Decimal)", "Horas (HH:mm)", "Pago"]

  const CsvHeader: string := Join(Headers, ",")

  /** A money amount: a dollar sign and two decimals. */
  function Dollars(x: real): string {
    "$" + Fixed2(x)
  }

  /** One shift: the texts quoted, the numbers with two decimals. */
  function ShiftLine(s: Shift): string {
    Join([Quote(s.fullName), Quote(s.jobTitle), Dollars(s.rate), Quote(s.inDate), Quote(s.outDate),
          Fixed2(s.hoursOriginal), Quote(s.hoursFormatted), Dollars(s.pay)], ",")
  }

  /** An employee's total line, given the `H:mm` sum of the shifts. */
  function TotalLineOf(name: string, hours: real, hhmm: string, pay: real): string {
    Join([Quote("Total del Empleado: " + name), "", "", "", "", Fixed2(hours), Quote(hhmm), Dollars(pay)], ",")
  }

  /** The `H:mm` texts of some shifts, in order. */
  function HoursTexts(shifts: seq<Shift>): (ts: seq<string>)
    ensures |ts| == |shifts|
    ensures forall k :: 0 <= k < |shifts| ==> ts[k] == shifts[k].hoursFormatted
  {
    seq(|shifts|, k requires 0 <= k < |shifts| => shifts[k].hoursFormatted)
  }

  function TotalLine(g: EmployeeGroup): string {
    TotalLineOf(g.name, g.totalHours, SumText(HoursTexts(g.shifts)), g.totalPay)
  }

  function ShiftLines(shifts: seq<Shift>): (ls: seq<string>)
    ensures |ls| == |shifts|
    ensures forall k :: 0 <= k < |shifts| ==> ls[k] == ShiftLine(shifts[k])
  {
    Map(shifts, ShiftLine)
  }

  /** An employee's block: the shift lines, then the total line. */
  function GroupLines(g: EmployeeGroup): seq<string> {
    ShiftLines(g.shifts) + [TotalLine(g)]
  }

  function GroupsLines(groups: seq<EmployeeGroup>): seq<string> {
    if groups == [] then [] else GroupsLines(groups[..|groups| - 1]) + GroupLines(groups[|groups| - 1])
  }

  /** The text `convertToCSV` produces for a report. */
  function PayrollCsv(data: seq<Shift>): string {
    Join([CsvHeader] + GroupsLines(EmployeeGroups(data)), "\n")
  }

  /** `convertToCSV`: groups the shifts, writes each group's block, joins the lines. */
  method ConvertToCsv(data: seq<Shift>) returns (csv: string)
    ensures csv == PayrollCsv(data)
  {
    var groups := GroupByEmployee(data);
    var rows := WriteGroups(groups);
    csv := Join([CsvHeader] + rows, "\n");
  }

  /** The `forEach` over the groups. */
  method WriteGroups(groups: seq<EmployeeGroup>) returns (rows: seq<string>)
    ensures rows == GroupsLines(groups)
  {
    rows := [];
    var i := 0;
    while i < |groups|
      invariant 0 <= i <= |groups|
      invariant rows == GroupsLines(groups[..i])
    {
      GroupsLinesSnoc(groups, i);
      rows := PushGroupLines(rows, groups[i]);
      i := i + 1;
    }
    assert groups[..i] == groups;
  }

  lemma GroupsLinesSnoc(groups: seq<EmployeeGroup>, i: nat)
    requires i < |groups|
    ensures GroupsLines(groups[..i + 1]) == GroupsLines(groups[..i]) + GroupLines(groups[i])
  {
    assert groups[..i + 1][..i] == groups[..i];
  }

  /** The body of the `forEach` over groups: a line per shift, then the total line
      with the shifts' `H:mm` texts summed. */
  method PushGroupLines(rows: seq<string>, g: EmployeeGroup) returns (out: seq<string>)
    ensures out == rows + GroupLines(g)
  {
    var shiftRows := PushShiftLines(rows, g.shifts);
    var hhmm := SumHHmmTimes(HoursTexts(g.shifts));
    var total := TotalLineOf(g.name, g.totalHours, hhmm, g.totalPay);
    assert total == TotalLine(g);
    out := shiftRows + [total];
    AppendAssoc(rows, ShiftLines(g.shifts), [total]);
  }

  /** The `forEach` over one group's shifts. */
  method PushShiftLines(rows: seq<string>, shifts: seq<Shift>) returns (out: seq<string>)
    ensures out == rows + ShiftLines(shifts)
  {
    out := rows;
    var j := 0;
    while j < |shifts|
      invariant 0 <= j <= |shifts|
      invariant out == rows + ShiftLines(shifts[..j])
    {
      ShiftLinesSnoc(shifts, j);
      AppendAssoc(rows, ShiftLines(shifts[..j]), [ShiftLine(shifts[j])]);
      out := out + [ShiftLine(shifts[j])];
      j := j + 1;
    }
    assert shifts[..j] == shifts;
  }

  lemma ShiftLinesSnoc(shifts: seq<Shift>, j: nat)
    requires j < |shifts|
    ensures ShiftLines(shifts[..j + 1]) == ShiftLines(shifts[..j]) + [ShiftLine(shifts[j])]
  {
    MapSnoc(shifts, j, ShiftLine);
  }

  // ---------------------------------------------------------------- reading the export back

  /** A shift whose texts hold no line break. */
  predicate OneLine(s: Shift) {
    '\n' !in s.fullName && '\n' !in s.jobTitle && '\n' !in s.inDate
    && '\n' !in s.outDate && '\n' !in s.hoursFormatted
  }

  lemma {:induction false} GroupsLinesCount(groups: seq<EmployeeGroup>)
    ensures |GroupsLines(groups)| == |GroupedShifts(groups)| + |groups|
  {
    if groups != [] {
      GroupsLinesCount(groups[..|groups| - 1]);
    }
  }

  /** Every line the export writes is one line of text, given one-line shifts. */
  lemma ShiftLineOneLine(s: Shift)
    requires OneLine(s)
    ensures '\n' !in ShiftLine(s)
  {
    QuoteOneLine(s.fullName);
    QuoteOneLine(s.jobTitle);
    QuoteOneLine(s.inDate);
    QuoteOneLine(s.outDate);
    QuoteOneLine(s.hoursFormatted);
    DollarsOneLine(s.rate);
    DollarsOneLine(s.pay);
    Fixed2OneLine(s.hoursOriginal);
    var parts := [Quote(s.fullName), Quote(s.jobTitle), Dollars(s.rate), Quote(s.inDate), Quote(s.outDate),
                  Fixed2(s.hoursOriginal), Quote(s.hoursFormatted), Dollars(s.pay)];
    JoinExcludes(parts, ",", '\n');
  }

  lemma TotalLineOneLine(g: EmployeeGroup)
    requires '\n' !in g.name
    ensures '\n' !in TotalLine(g)
  {
    var hhmm := SumText(HoursTexts(g.shifts));
    SumTextOneLine(HoursTexts(g.shifts));
    TitleOneLine(g.name);
    QuoteOneLine("Total del Empleado: " + g.name);
    QuoteOneLine(hhmm);
    Fixed2OneLine(g.totalHours);
    DollarsOneLine(g.totalPay);
    var parts := [Quote("Total del Empleado: " + g.name), "", "", "", "", Fixed2(g.totalHours), Quote(hhmm), Dollars(g.totalPay)];
    JoinExcludes(parts, ",", '\n');
  }

  lemma TitleOneLine(name: string)
    requires '\n' !in name
    ensures '\n' !in "Total del Empleado: " + name
  {
    var title := "Total del Empleado: ";
    assert forall j :: 0 <= j < |title| ==> title[j] != '\n';
  }

  lemma QuoteOneLine(x: string)
    requires '\n' !in x
    ensures '\n' !in Quote(x)
  {
    assert Quote(x) == "\"" + x + "\"";
  }

  lemma DollarsOneLine(x: real)
    ensures '\n' !in Dollars(x)
  {
    Fixed2OneLine(x);
  }

  lemma HeaderOneLine()
    ensures '\n' !in CsvHeader
  {
    forall k | 0 <= k < |Headers|
      ensures '\n' !in Headers[k]
    {
      var h := Headers[k];
      assert forall j :: 0 <= j < |h| ==> h[j] != '\n';
    }
    JoinExcludes(Headers, ",", '\n');
  }

  lemma {:induction false} GroupsLinesOneLine(groups: seq<EmployeeGroup>)
    requires forall i :: 0 <= i < |groups| ==> '\n' !in groups[i].name
    requires forall i, k :: 0 <= i < |groups| && 0 <= k < |groups[i].shifts| ==> OneLine(groups[i].shifts[k])
    ensures forall k :: 0 <= k < |GroupsLines(groups)| ==> '\n' !in GroupsLines(groups)[k]
  {
    if groups != [] {
      var n := |groups| - 1;
      var g := groups[n];
      GroupsLinesOneLine(groups[..n]);
      GroupLinesOneLine(g);
      OneLineConcat(GroupsLines(groups[..n]), GroupLines(g));
    }
  }

  lemma GroupLinesOneLine(g: EmployeeGroup)
    requires '\n' !in g.name
    requires forall k :: 0 <= k < |g.shifts| ==> OneLine(g.shifts[k])
    ensures forall k :: 0 <= k < |GroupLines(g)| ==> '\n' !in GroupLines(g)[k]
  {
    ShiftLinesOneLine(g.shifts);
    TotalLineOneLine(g);
    OneLineConcat(ShiftLines(g.shifts), [TotalLine(g)]);
  }

  lemma ShiftLinesOneLine(shifts: seq<Shift>)
    requires forall k :: 0 <= k < |shifts| ==> OneLine(shifts[k])
    ensures forall k :: 0 <= k < |ShiftLines(shifts)| ==> '\n' !in ShiftLines(shifts)[k]
  {
    forall k | 0 <= k < |shifts|
      ensures '\n' !in ShiftLine(shifts[k])
    {
      ShiftLineOneLine(shifts[k]);
    }
  }

  /** A shift of the report belongs to the group named after its employee. */
  lemma GroupedOneLine(data: seq<Shift>)
    requires forall k :: 0 <= k < |data| ==> OneLine(data[k])
    ensures forall i :: 0 <= i < |EmployeeGroups(data)| ==> '\n' !in EmployeeGroups(data)[i].name
    ensures forall i, k :: 0 <= i < |EmployeeGroups(data)| && 0 <= k < |EmployeeGroups(data)[i].shifts|
              ==> OneLine(EmployeeGroups(data)[i].shifts[k])
  {
    var groups := EmployeeGroups(data);
    EmployeeGroupsCorrect(data);
    EmployeeShiftsPartition(data);
    forall i, k | 0 <= i < |groups| && 0 <= k < |groups[i].shifts|
      ensures OneLine(groups[i].shifts[k])
    {
      GroupedShiftIn(groups, i, k);
    }
    forall i | 0 <= i < |groups|
      ensures '\n' !in groups[i].name
    {
      assert groups[i].shifts != [];
      ShiftsOfNamed(data, groups[i].name, 0);
      GroupedShiftIn(groups, i, 0);
    }
  }

  /** Every shift of a group is among the grouped shifts. */
  lemma {:induction false} GroupedShiftIn(groups: seq<EmployeeGroup>, i: nat, k: nat)
    requires i < |groups| && k < |groups[i].shifts|
    ensures groups[i].shifts[k] in multiset(GroupedShifts(groups))
  {
    var n := |groups| - 1;
    assert GroupedShifts(groups) == GroupedShifts(groups[..n]) + groups[n].shifts;
    if i < n {
      GroupedShiftIn(groups[..n], i, k);
    } else {
      assert groups[n].shifts[k] in groups[n].shifts;
    }
  }

  /** Read back line by line, the export is the header followed by each employee's
      block in order; it has one line per shift plus one per employee. */
  lemma PayrollCsvLines(data: seq<Shift>)
    requires forall k :: 0 <= k < |data| ==> OneLine(data[k])
    ensures SplitOn(PayrollCsv(data), '\n') == [CsvHeader] + GroupsLines(EmployeeGroups(data))
    ensures |SplitOn(PayrollCsv(data), '\n')| == 1 + |data| + |Names(data)|
  {
    var groups := EmployeeGroups(data);
    var lines := [CsvHeader] + GroupsLines(groups);
    GroupedOneLine(data);
    GroupsLinesOneLine(groups);
    HeaderOneLine();
    OneLineConcat([CsvHeader], GroupsLines(groups));
    SplitJoin(lines, '\n');
    GroupsLinesCount(groups);
    EmployeeShiftsPartition(data);
    assert |multiset(GroupedShifts(groups))| == |multiset(data)|;
    EmployeeCount(data);
  }

  // ---------------------------------------------------------------- what the lines say

  /** Every shift of the report has its line in the export. */
  lemma EveryShiftExported(data: seq<Shift>, k: nat)
    requires k < |data|
    ensures ShiftLine(data[k]) in GroupsLines(EmployeeGroups(data))
  {
    EmployeeShiftsPartition(data);
    assert data[k] in multiset(data);
    GroupedLineIn(EmployeeGroups(data), data[k]);
  }

  lemma {:induction false} GroupedLineIn(groups: seq<EmployeeGroup>, s: Shift)
    requires s in multiset(GroupedShifts(groups))
    ensures ShiftLine(s) in GroupsLines(groups)
  {
    var n := |groups| - 1;
    var g := groups[n];
    assert GroupedShifts(groups) == GroupedShifts(groups[..n]) + g.shifts;
    assert GroupsLines(groups) == GroupsLines(groups[..n]) + GroupLines(g);
    if s in multiset(GroupedShifts(groups[..n])) {
      GroupedLineIn(groups[..n], s);
      InLeft(ShiftLine(s), GroupsLines(groups[..n]), GroupLines(g));
    } else {
      assert s in g.shifts;
      ShiftLineInGroup(g, s);
      InRight(ShiftLine(s), GroupsLines(groups[..n]), GroupLines(g));
    }
  }

  lemma ShiftLineInGroup(g: EmployeeGroup, s: Shift)
    requires s in g.shifts
    ensures ShiftLine(s) in GroupLines(g)
  {
    var j :| 0 <= j < |g.shifts| && g.shifts[j] == s;
    MapHas(g.shifts, j, ShiftLine);
    InLeft(ShiftLine(s), ShiftLines(g.shifts), [TotalLine(g)]);
  }

  lemma InLeft<T>(x: T, a: seq<T>, b: seq<T>)
    requires x in a
    ensures x in a + b
  {
  }

  lemma InRight<T>(x: T, a: seq<T>, b: seq<T>)
    requires x in b
    ensures x in a + b
  {
  }

  /** The total line of each employee reports the hours, the `H:mm` sum and the pay
      of exactly that employee's shifts. */
  lemma TotalLineReports(data: seq<Shift>, i: nat)
    requires i < |EmployeeGroups(data)|
    ensures var g := EmployeeGroups(data)[i];
      var mine := ShiftsOf(data, g.name);
      TotalLine(g) == TotalLineOf(g.name, SumHours(mine), SumText(HoursTexts(mine)), TotalPayment(mine))
  {
    EmployeeGroupsCorrect(data);
    assert GroupHolds(data, EmployeeGroups(data)[i]);
  }

  /** The hours of some shifts, in order. */
  function HoursOf(shifts: seq<Shift>): (ds: seq<real>)
    ensures |ds| == |shifts|
    ensures forall k :: 0 <= k < |shifts| ==> ds[k] == shifts[k].hoursOriginal
  {
    seq(|shifts|, k requires 0 <= k < |shifts| => shifts[k].hoursOriginal)
  }

  /** For shifts whose `H:mm` text is that of their hours, and no negative hours, the
      total line's `H:mm` text reads back as the sum of every shift's hours in minutes,
      each rounded. */
  lemma TotalHHmmReadsBack(shifts: seq<Shift>)
    requires forall k :: 0 <= k < |shifts| ==> shifts[k].hoursFormatted == DecimalToHHmm(shifts[k].hoursOriginal)
    requires forall k :: 0 <= k < |shifts| ==> shifts[k].hoursOriginal >= 0.0
    ensures TextMinutes(SumText(HoursTexts(shifts))) == Some(Sum(RoundedMinutes(HoursOf(shifts))))
  {
    var ds := HoursOf(shifts);
    assert HoursTexts(shifts) == HHmmTexts(ds);
    TotalOfDecimals(ds);
    var ms := RoundedMinutes(ds);
    SumNonNegative(ms);
    FormatMinutesNormalised(Sum(ms));
  }

  lemma {:induction false} SumNonNegative(ms: seq<int>)
    requires forall k :: 0 <= k < |ms| ==> ms[k] >= 0
    ensures Sum(ms) >= 0
  {
    if ms != [] {
      SumNonNegative(ms[..|ms| - 1]);
    }
  }
}
