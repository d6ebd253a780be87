/// Reading a time-clock export into payroll shifts: the file is split into lines,
/// the header and blank lines are dropped, each line is split on the commas that
/// stand outside double-quoted fields, and each accepted line becomes one shift
/// with its payable hours, the hourly rate of its job title and its pay.
module PayrollImport {
  import opened Text
  import opened PayrollHours

  /** One shift of one employee, as stored with an uploaded report. */
  datatype Shift = Shift(
    fullName: string,
    jobTitle: string,
    inDate: string,
    outDate: string,
    hoursOriginal: real,
    hoursFormatted: string,
    rate: real,
    pay: real)

  /** An uploaded report: its id and upload date come from the clock, its file
      name from the file picker. */
  datatype Upload = Upload(id: int, fileName: string, uploadDate: string, data: seq<Shift>, totalPayment: real)

  // ---------------------------------------------------------------- quote-aware split

  function QuoteCount(s: string): nat {
    if s == [] then 0 else QuoteCount(s[..|s| - 1]) + (if s[|s| - 1] == '"' then 1 else 0)
  }

  lemma {:induction false} QuoteCountConcat(a: string, b: string)
    ensures QuoteCount(a + b) == QuoteCount(a) + QuoteCount(b)
  {
    if b != [] {
      assert (a + b)[..|a + b| - 1] == a + b[..|b| - 1];
      QuoteCountConcat(a, b[..|b| - 1]);
    } else {
      assert a + b == a;
    }
  }

  lemma {:induction false} QuoteCountNone(s: string)
    requires '"' !in s
    ensures QuoteCount(s) == 0
  {
    if s != [] {
      QuoteCountNone(s[..|s| - 1]);
    }
  }

  /** The row is split at comma `k` when an even number of double quotes follow it
      (the lookahead `(?=(?:(?:[^"]*"){2})*[^"]*$)`). */
  predicate SplitsAt(s: string, k: int) {
    0 <= k < |s| && s[k] == ',' && QuoteCount(s[k + 1..]) % 2 == 0
  }

  /** The first split position at or after `j`, or `|s|` when there is none. */
  function FirstSplitFrom(s: string, j: nat): (i: nat)
    requires j <= |s|
    ensures j <= i <= |s|
    ensures i < |s| ==> SplitsAt(s, i)
    ensures forall k :: j <= k < i ==> !SplitsAt(s, k)
    decreases |s| - j
  {
    if j == |s| then j
    else if SplitsAt(s, j) then j
    else FirstSplitFrom(s, j + 1)
  }

  /** The fields of a row: the text between split positions. */
  function SplitFields(s: string): (parts: seq<string>)
    ensures |parts| >= 1
    decreases |s|
  {
    var i := FirstSplitFrom(s, 0);
    if i == |s| then [s]
    else
      var rest := SplitFields(s[i + 1..]);
      [s[..i]] + rest
  }

  /** The fields join back to the row. */
  lemma {:induction false} SplitFieldsJoin(s: string)
    ensures Join(SplitFields(s), ",") == s
    decreases |s|
  {
    var i := FirstSplitFrom(s, 0);
    if i < |s| {
      var rest := SplitFields(s[i + 1..]);
      SplitFieldsJoin(s[i + 1..]);
      assert SplitFields(s)[1..] == rest;
      assert s == s[..i] + "," + s[i + 1..];
    }
  }

  /** A row without double quotes splits on every comma. */
  lemma {:induction false} SplitFieldsPlain(s: string)
    requires '"' !in s
    ensures SplitFields(s) == SplitOn(s, ',')
    decreases |s|
  {
    forall k | 0 <= k < |s|
      ensures SplitsAt(s, k) <==> s[k] == ','
    {
      QuoteCountNone(s[k + 1..]);
    }
    var i := FirstSplitFrom(s, 0);
    if i == |s| {
      IndexOfAbsent(s, ',');
    } else {
      IndexOfFirst(s, ',', i);
      SplitFieldsPlain(s[i + 1..]);
    }
  }

  /** A field as the exporting program writes it: plain text without commas or
      quotes, or any quote-free text wrapped in double quotes. */
  predicate WellQuoted(f: string) {
    || ('"' !in f && ',' !in f)
    || (|f| >= 2 && f[0] == '"' && f[|f| - 1] == '"' && '"' !in f[1..|f| - 1])
  }

  lemma WellQuotedCount(f: string)
    requires WellQuoted(f)
    ensures QuoteCount(f) % 2 == 0
  {
    if '"' !in f {
      QuoteCountNone(f);
    } else {
      var mid := f[1..|f| - 1];
      assert f == ['"'] + mid + ['"'];
      QuoteCountNone(mid);
      QuoteCountConcat(['"'] + mid, ['"']);
      QuoteCountConcat(['"'], mid);
    }
  }

  /** No comma inside a well-quoted field splits the row, whatever follows it
      with an even number of quotes. */
  lemma NoSplitInside(f: string, tail: string, k: int)
    requires WellQuoted(f) && QuoteCount(tail) % 2 == 0
    requires 0 <= k < |f|
    ensures !SplitsAt(f + tail, k)
  {
    var s := f + tail;
    if s[k] == ',' {
      assert f[k] == ',';
      QuotedRest(f, k);
      assert s[k + 1..] == f[k + 1..] + tail;
      QuoteCountConcat(f[k + 1..], tail);
    }
  }

  /** After a comma inside a quoted field, only the closing quote remains. */
  lemma QuotedRest(f: string, k: int)
    requires WellQuoted(f) && 0 <= k < |f| && f[k] == ','
    ensures QuoteCount(f[k + 1..]) == 1
  {
    assert |f| >= 2 && f[0] == '"' && f[|f| - 1] == '"';
    var mid := f[k + 1..|f| - 1];
    assert f[k + 1..] == mid + ['"'];
    assert '"' !in mid by {
      assert forall j :: 0 <= j < |mid| ==> mid[j] == f[1..|f| - 1][k + j];
    }
    QuoteCountNone(mid);
    assert (mid + ['"'])[..|mid|] == mid;
  }

  lemma {:induction false} JoinWellQuotedCount(fields: seq<string>)
    requires forall k :: 0 <= k < |fields| ==> WellQuoted(fields[k])
    ensures QuoteCount(Join(fields, ",")) % 2 == 0
  {
    if |fields| == 1 {
      WellQuotedCount(fields[0]);
    } else if |fields| > 1 {
      JoinWellQuotedCount(fields[1..]);
      WellQuotedCount(fields[0]);
      var rest := Join(fields[1..], ",");
      QuoteCountConcat(fields[0] + ",", rest);
      QuoteCountConcat(fields[0], ",");
    }
  }

  /** Splitting a row of well-quoted fields gives the fields back: a comma inside
      a quoted field does not split it (section 2 of RFC 4180, rules 5 and 6). */
  lemma {:induction false} SplitFieldsQuoted(fields: seq<string>)
    requires |fields| >= 1
    requires forall k :: 0 <= k < |fields| ==> WellQuoted(fields[k])
    ensures SplitFields(Join(fields, ",")) == fields
  {
    var s := Join(fields, ",");
    var f := fields[0];
    if |fields| == 1 {
      assert s == f + "";
      forall k | 0 <= k < |s|
        ensures !SplitsAt(s, k)
      {
        NoSplitInside(f, "", k);
      }
      assert FirstSplitFrom(s, 0) == |s|;
    } else {
      var rest := Join(fields[1..], ",");
      assert s == f + ("," + rest);
      JoinWellQuotedCount(fields[1..]);
      QuoteCountConcat(",", rest);
      forall k | 0 <= k < |f|
        ensures !SplitsAt(s, k)
      {
        NoSplitInside(f, "," + rest, k);
      }
      assert s[|f| + 1..] == rest;
      assert SplitsAt(s, |f|);
      assert FirstSplitFrom(s, 0) == |f|;
      assert s[..|f|] == f;
      SplitFieldsQuoted(fields[1..]);
    }
  }

  // ---------------------------------------------------------------- fields of a row

  /** `col.replace(/^"(.*)"$/, '$1')`: the surrounding quotes dropped. */
  function Unquote(col: string): (r: string)
    ensures |r| <= |col|
  {
    if |col| >= 2 && col[0] == '"' && col[|col| - 1] == '"' then col[1..|col| - 1] else col
  }

  /** The cleaned fields of one line: trimmed, carriage returns removed, split
      outside quotes, each field unquoted and trimmed. */
  function RowFields(row: string): (cols: seq<string>)
    ensures |cols| >= 1
  {
    var parts := SplitFields(RemoveChar(Trim(row), '\r'));
    seq(|parts|, k requires 0 <= k < |parts| => Trim(Unquote(parts[k])))
  }

  /** A line written with every field quoted reads back field by field, when the
      fields hold no quotes and no carriage returns and have no white ends. */
  lemma QuotedRowFields(fields: seq<string>)
    requires |fields| >= 1
    requires forall k :: 0 <= k < |fields| ==> '"' !in fields[k] && '\r' !in fields[k]
    requires forall k :: 0 <= k < |fields| ==> Trim(fields[k]) == fields[k]
    ensures RowFields(QuotedRow(fields)) == fields
  {
    var q := seq(|fields|, k requires 0 <= k < |fields| => Quote(fields[k]));
    var row := QuotedRow(fields);
    assert row == Join(q, ",");
    QuotedParts(fields, q);
    QuotedRowClean(q, row);
    SplitFieldsQuoted(q);
  }

  /** Each quoted field is well quoted, has no carriage return, and unquotes to itself. */
  lemma QuotedParts(fields: seq<string>, q: seq<string>)
    requires forall k :: 0 <= k < |fields| ==> '"' !in fields[k] && '\r' !in fields[k]
    requires forall k :: 0 <= k < |fields| ==> Trim(fields[k]) == fields[k]
    requires q == seq(|fields|, k requires 0 <= k < |fields| => Quote(fields[k]))
    ensures forall k :: 0 <= k < |q| ==> '\r' !in q[k] && WellQuoted(q[k]) && Trim(Unquote(q[k])) == fields[k]
  {
    forall k | 0 <= k < |q|
      ensures '\r' !in q[k] && WellQuoted(q[k]) && Trim(Unquote(q[k])) == fields[k]
    {
      assert q[k] == "\"" + fields[k] + "\"";
      assert q[k][1..|q[k]| - 1] == fields[k];
      assert Unquote(q[k]) == fields[k];
    }
  }

  /** A row of quoted fields is its own trim and holds no carriage return. */
  lemma QuotedRowClean(q: seq<string>, row: string)
    requires |q| >= 1 && row == Join(q, ",")
    requires forall k :: 0 <= k < |q| ==> |q[k]| >= 2 && q[k][0] == '"' && q[k][|q[k]| - 1] == '"'
    requires forall k :: 0 <= k < |q| ==> '\r' !in q[k]
    ensures Trim(row) == row && RemoveChar(row, '\r') == row
  {
    JoinFirst(q, ",");
    JoinLast(q, ",");
    assert row[0] == '"' && row[|row| - 1] == '"';
    JoinExcludes(q, ",", '\r');
  }

  lemma {:induction false} JoinFirst(parts: seq<string>, sep: string)
    requires |parts| >= 1 && |parts[0]| >= 1
    ensures |Join(parts, sep)| >= 1 && Join(parts, sep)[0] == parts[0][0]
  {
  }

  lemma {:induction false} JoinLast(parts: seq<string>, sep: string)
    requires |parts| >= 1 && |parts[|parts| - 1]| >= 1
    ensures |Join(parts, sep)| >= 1
    ensures Join(parts, sep)[|Join(parts, sep)| - 1] == parts[|parts| - 1][|parts[|parts| - 1]| - 1]
  {
    if |parts| > 1 {
      JoinLast(parts[1..], sep);
    }
  }

  // ---------------------------------------------------------------- fixed-salary employees, rates, pay

  /** The salaried employees the application starts with; they are paid outside
      the hourly payroll. The import takes the current list as a parameter. */
  const FixedSalaryNames: seq<string> := ["Raidel Reyes Dorado", "Rigo", "Juan Velazquez"]

  /** `name.toLowerCase().split(' ')[i]`, where a missing word is `undefined`
      and `includes(undefined)` looks for the text "undefined". */
  function Word(name: string, i: nat): string {
    var words := SplitOn(ToLower(name), ' ');
    if i < |words| then words[i] else "undefined"
  }

  /** A name that contains, case-insensitively, the first or the second word of a
      salaried employee's name. */
  predicate IsFixed(name: string, salaried: seq<string>) {
    exists e :: 0 <= e < |salaried| &&
      (Contains(ToLower(name), Word(salaried[e], 0)) || Contains(ToLower(name), Word(salaried[e], 1)))
  }

  lemma LowerNoSpace(a: string)
    requires ' ' !in a
    ensures ' ' !in ToLower(a)
  {
    var r := ToLower(a);
    forall k | 0 <= k < |r|
      ensures r[k] != ' '
    {
      assert r[k] == LowerChar(a[k]);
    }
  }

  /** A one-word name has itself, lower-cased, as first word and "undefined" as second. */
  lemma OneWordName(n: string)
    requires ' ' !in n
    ensures Word(n, 0) == ToLower(n) && Word(n, 1) == "undefined"
  {
    LowerNoSpace(n);
    IndexOfAbsent(ToLower(n), ' ');
  }

  /** With a one-word salaried name in the list (such as "Rigo"), every name that
      contains "undefined" is skipped as well. */
  lemma UndefinedIsFixed(name: string, salaried: seq<string>, e: nat)
    requires e < |salaried| && ' ' !in salaried[e]
    requires Contains(ToLower(name), "undefined")
    ensures IsFixed(name, salaried)
  {
    OneWordName(salaried[e]);
  }

  /** The word is matched anywhere, also inside a longer word: with "Rigo" in the
      list, "Rodrigo Diaz" is skipped. */
  lemma InsideWordIsFixed(name: string, salaried: seq<string>, e: nat, at: int)
    requires e < |salaried| && ' ' !in salaried[e]
    requires OccursAt(ToLower(name), ToLower(salaried[e]), at)
    ensures IsFixed(name, salaried)
  {
    OneWordName(salaried[e]);
  }

  /** The hourly rate of each job title. */
  const HourlyRates: map<string, real> := map[
    "Server" := 9.99, "Bartender" := 12.00, "Host" := 12.00, "Busser" := 12.00,
    "Runner" := 12.00, "Cook" := 16.00, "Pastry" := 15.00]

  /** `hourlyRates[jobTitle] || 9.99`. */
  function RateFor(jobTitle: string): (rate: real)
    ensures jobTitle in HourlyRates ==> rate == HourlyRates[jobTitle]
    ensures jobTitle !in HourlyRates ==> rate == 9.99
    ensures rate > 0.0
  {
    if jobTitle in HourlyRates && HourlyRates[jobTitle] != 0.0 then HourlyRates[jobTitle] else 9.99
  }

  /** `parseFloat((hours * rate).toFixed(2))`. */
  function Pay(hours: real, rate: real): (pay: real)
    ensures -0.005 <= hours * rate - pay <= 0.005
  {
    RoundCents(hours * rate)
  }

  /** The pay is what `parseFloat` reads back from the product written with two decimals. */
  lemma PayReadsFixed(hours: real, rate: real)
    ensures ParseFloat(Fixed2(hours * rate)) == Some(Pay(hours, rate))
  {
    ParseFixed2(hours * rate);
  }

  // ---------------------------------------------------------------- rows to shifts

  /** A shift as the import builds it: its hours in `H:mm`, the rate of its job
      title, its pay rounded to the cent. */
  predicate WellFormed(s: Shift, salaried: seq<string>) {
    && s.fullName != "" && s.jobTitle != "" && s.inDate != ""
    && !IsFixed(s.fullName, salaried)
    && s.hoursFormatted == DecimalToHHmm(s.hoursOriginal)
    && Priced(s)
  }

  /** A shift paid at its job title's rate, rounded to the cent. */
  predicate Priced(s: Shift) {
    s.rate == RateFor(s.jobTitle) && s.pay == Pay(s.hoursOriginal, s.rate)
  }

  /** The shift read from one non-blank line, or `None` when the line is skipped. */
  function ParseRow(row: string, salaried: seq<string>): (r: Option<Shift>)
    ensures r.Some? <==>
      (var cols := RowFields(row);
       |cols| >= 9 && Trim(cols[1]) != "" && cols[2] != "" && cols[3] != "" && !IsFixed(Trim(cols[1]), salaried))
    ensures r.Some? ==> WellFormed(r.value, salaried)
    ensures r.Some? ==> r.value.fullName == Trim(RowFields(row)[1]) && r.value.jobTitle == RowFields(row)[2]
    ensures r.Some? ==> r.value.inDate == RowFields(row)[3] && r.value.outDate == RowFields(row)[4]
    ensures r.Some? ==> r.value.hoursOriginal == NumberOr0(RowFields(row)[8])
  {
    var cols := RowFields(row);
    if |cols| < 9 then None
    else
      var name := Trim(cols[1]);
      if name == "" || cols[2] == "" || cols[3] == "" then None
      else if IsFixed(name, salaried) then None
      else
        var hours := NumberOr0(cols[8]);
        var rate := RateFor(cols[2]);
        Some(Shift(name, cols[2], cols[3], cols[4], hours, DecimalToHHmm(hours), rate, Pay(hours, rate)))
  }

  /** The lines after the first. */
  function DataLines(text: string): seq<string> {
    SplitOn(text, '\n')[1..]
  }

  /** The shifts of a list of lines, in order: blank lines and rejected lines dropped. */
  function Shifts(rows: seq<string>, salaried: seq<string>): (data: seq<Shift>)
    ensures |data| <= |rows|
    ensures forall k :: 0 <= k < |data| ==> WellFormed(data[k], salaried)
  {
    if rows == [] then []
    else
      var last := rows[|rows| - 1];
      var front := Shifts(rows[..|rows| - 1], salaried);
      if Trim(last) == "" then front
      else
        match ParseRow(last, salaried)
        case None => front
        case Some(s) => front + [s]
  }

  /** The import of a file's text: every line after the header, parsed in order. */
  method ImportCsv(text: string, salaried: seq<string>) returns (data: seq<Shift>)
    ensures data == Shifts(DataLines(text), salaried)
  {
    var rows := DataLines(text);
    data := [];
    var i := 0;
    while i < |rows|
      invariant 0 <= i <= |rows|
      invariant data == Shifts(rows[..i], salaried)
    {
      ShiftsStep(rows, i, salaried);
      var row := rows[i];
      if Trim(row) != "" {
        var shift := ParseRow(row, salaried);
        if shift.Some? {
          data := data + [shift.value];
        }
      }
      i := i + 1;
    }
    assert rows[..i] == rows;
  }

  lemma ShiftsStep(rows: seq<string>, i: nat, salaried: seq<string>)
    requires i < |rows|
    ensures Shifts(rows[..i + 1], salaried)
         == if Trim(rows[i]) == "" then Shifts(rows[..i], salaried)
            else match ParseRow(rows[i], salaried)
                 case None => Shifts(rows[..i], salaried)
                 case Some(s) => Shifts(rows[..i], salaried) + [s]
  {
    assert rows[..i + 1][..i] == rows[..i];
  }

  /** The first line is a header whatever it holds. */
  lemma HeaderDropped(header: string, body: string)
    requires '\n' !in header
    ensures DataLines(header + "\n" + body) == SplitOn(body, '\n')
  {
    var s := header + "\n" + body;
    assert s[..|header|] == header;
    IndexOfFirst(s, '\n', |header|);
    assert s[|header| + 1..] == body;
  }

  /** Appending a blank line changes nothing. */
  lemma BlankLineSkipped(rows: seq<string>, blank: string, salaried: seq<string>)
    requires AllWhite(blank)
    ensures Shifts(rows + [blank], salaried) == Shifts(rows, salaried)
  {
    TrimEmpty(blank);
    assert (rows + [blank])[..|rows|] == rows;
  }

  /** A line with fewer than nine fields changes nothing. */
  lemma ShortLineSkipped(rows: seq<string>, line: string, salaried: seq<string>)
    requires |RowFields(line)| < 9
    ensures Shifts(rows + [line], salaried) == Shifts(rows, salaried)
  {
    assert (rows + [line])[..|rows|] == rows;
  }

  /** A line with every field quoted is read into the shift its fields describe. */
  lemma QuotedLineRead(fields: seq<string>, salaried: seq<string>)
    requires |fields| == 9
    requires forall k :: 0 <= k < 9 ==> '"' !in fields[k] && '\r' !in fields[k]
    requires forall k :: 0 <= k < 9 ==> Trim(fields[k]) == fields[k]
    requires fields[1] != "" && fields[2] != "" && fields[3] != "" && !IsFixed(fields[1], salaried)
    ensures ParseRow(QuotedRow(fields), salaried) == Some(Shift(
      fields[1], fields[2], fields[3], fields[4],
      NumberOr0(fields[8]), DecimalToHHmm(NumberOr0(fields[8])),
      RateFor(fields[2]), Pay(NumberOr0(fields[8]), RateFor(fields[2]))))
  {
    QuotedRowFields(fields);
  }

  // ---------------------------------------------------------------- upload record

  function TotalPayment(data: seq<Shift>): real {
    if data == [] then 0.0 else TotalPayment(data[..|data| - 1]) + data[|data| - 1].pay
  }

  /** The record appended to the uploaded reports: the shifts and the sum of their pay. */
  function AddUpload(uploads: seq<Upload>, id: int, fileName: string, uploadDate: string, text: string, salaried: seq<string>): (r: seq<Upload>)
    ensures |r| == |uploads| + 1 && r[..|uploads|] == uploads
    ensures r[|uploads|].data == Shifts(DataLines(text), salaried)
    ensures r[|uploads|].totalPayment == TotalPayment(r[|uploads|].data)
  {
    var data := Shifts(DataLines(text), salaried);
    uploads + [Upload(id, fileName, uploadDate, data, TotalPayment(data))]
  }

  /** The total payment of a report is the sum of the hours times the rate, each
      shift rounded to the cent. */
  lemma {:induction false} TotalPaymentRounded(data: seq<Shift>)
    requires forall k :: 0 <= k < |data| ==> Priced(data[k])
    ensures TotalPayment(data) == RoundedPay(data)
  {
    if data != [] {
      var n := |data| - 1;
      var front, s := data[..n], data[n];
      TotalPaymentRounded(front);
      assert Priced(s);
    }
  }

  function RoundedPay(data: seq<Shift>): real {
    if data == [] then 0.0
    else
      var s := data[|data| - 1];
      RoundedPay(data[..|data| - 1]) + Pay(s.hoursOriginal, RateFor(s.jobTitle))
  }
}
