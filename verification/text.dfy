/// Strings and number-to-text conversions shared by the restaurant applications:
/// the JavaScript `trim`, `toLowerCase`, `split`, `join`, `replaceAll`,
/// `padStart`, `parseFloat`, `Number`, `Math.round` and `toFixed(2)` that the
/// two user interfaces apply to their records, stated over `string` and `real`.
module Text {

  datatype Option<T> = None | Some(value: T)

  // ---------------------------------------------------------------- whitespace

  /** The WhiteSpace and LineTerminator characters that JavaScript's `trim` removes. */
  predicate IsWhite(c: char) {
    || c == ' ' || c == '\t' || c == '\n' || c == '\r' || c == '\U{B}' || c == '\U{C}'
    || c == '\U{A0}' || c == '\U{1680}' || ('\U{2000}' <= c <= '\U{200A}')
    || c == '\U{2028}' || c == '\U{2029}' || c == '\U{202F}' || c == '\U{205F}'
    || c == '\U{3000}' || c == '\U{FEFF}'
  }

  predicate AllWhite(s: string) {
    forall k :: 0 <= k < |s| ==> IsWhite(s[k])
  }

  /** `s.trimStart()`: drops the white characters at the front. */
  function TrimStart(s: string): (r: string)
    ensures |r| <= |s|
    ensures r != [] ==> !IsWhite(r[0])
  {
    if s != [] && IsWhite(s[0]) then TrimStart(s[1..]) else s
  }

  /** What `trimStart` drops is white and what it keeps is the rest of `s`. */
  lemma {:induction false} TrimStartDrops(s: string)
    ensures TrimStart(s) == s[|s| - |TrimStart(s)|..]
    ensures AllWhite(s[..|s| - |TrimStart(s)|])
  {
    if s != [] && IsWhite(s[0]) {
      TrimStartDrops(s[1..]);
      var n := |s| - |TrimStart(s)|;
      assert s[..n] == [s[0]] + s[1..][..n - 1];
    }
  }

  /** `s.trimEnd()`: drops the white characters at the back. */
  function TrimEnd(s: string): (r: string)
    ensures |r| <= |s|
    ensures r != [] ==> !IsWhite(r[|r| - 1])
  {
    if s != [] && IsWhite(s[|s| - 1]) then TrimEnd(s[..|s| - 1]) else s
  }

  /** What `trimEnd` drops is white and what it keeps is the front of `s`. */
  lemma {:induction false} TrimEndDrops(s: string)
    ensures TrimEnd(s) == s[..|TrimEnd(s)|]
    ensures AllWhite(s[|TrimEnd(s)|..])
  {
    if s != [] && IsWhite(s[|s| - 1]) {
      TrimEndDrops(s[..|s| - 1]);
      var n := |TrimEnd(s)|;
      assert s[n..] == s[..|s| - 1][n..] + [s[|s| - 1]];
    }
  }

  /** `s.trim()`. */
  function Trim(s: string): (r: string)
    ensures |r| <= |s|
    ensures r != [] ==> !IsWhite(r[0]) && !IsWhite(r[|r| - 1])
    ensures s != [] && !IsWhite(s[0]) && !IsWhite(s[|s| - 1]) ==> r == s
  {
    var t := TrimStart(s);
    TrimEndDrops(t);
    TrimEnd(t)
  }

  /** `trim` removes exactly the white prefix and the white suffix: what it keeps
      is a run of `s` with only white space before and after it. */
  lemma TrimDrops(s: string)
    ensures var k := |s| - |TrimStart(s)|;
      && k + |Trim(s)| <= |s|
      && Trim(s) == s[k..k + |Trim(s)|]
      && AllWhite(s[..k]) && AllWhite(s[k + |Trim(s)|..])
  {
    var t := TrimStart(s);
    var k := |s| - |t|;
    TrimStartDrops(s);
    TrimEndDrops(t);
    var n := |Trim(s)|;
    assert t == s[k..];
    assert Trim(s) == t[..n];
    assert s[k + n..] == t[n..];
  }

  /** Trimming leaves nothing exactly when the text is all white. */
  lemma TrimEmpty(s: string)
    ensures Trim(s) == [] <==> AllWhite(s)
  {
    var t := TrimStart(s);
    TrimStartDrops(s);
    TrimEndDrops(t);
    assert s == s[..|s| - |t|] + t;
    if Trim(s) == [] {
      assert t[|Trim(s)|..] == t;
    }
  }

  // ---------------------------------------------------------------- case

  /** The capitals `toLowerCase` maps one step down the code table: A to Z and
      the Latin-1 capitals À to Þ, except the multiplication sign. */
  predicate IsUpper(c: char) {
    ('A' <= c <= 'Z') || ('\U{C0}' <= c <= '\U{DE}' && c != '\U{D7}')
  }

  /** `toLowerCase` on one character: a capital becomes its small letter, 32 code
      points further on; every other character stays. */
  function LowerChar(c: char): (l: char)
    ensures !IsUpper(l)
    ensures IsUpper(c) ==> l as int == c as int + 32
    ensures !IsUpper(c) ==> l == c
  {
    if IsUpper(c) then (c as int + 32) as char else c
  }

  /** `toLowerCase`, for the ASCII and Latin-1 letters. */
  function ToLower(s: string): (r: string)
    ensures |r| == |s|
    ensures forall k :: 0 <= k < |s| ==> r[k] == LowerChar(s[k])
    ensures forall k :: 0 <= k < |r| ==> !IsUpper(r[k])
    ensures forall k :: 0 <= k < |s| && !IsUpper(s[k]) ==> r[k] == s[k]
  {
    if s == [] then [] else [LowerChar(s[0])] + ToLower(s[1..])
  }

  lemma ToLowerConcat(a: string, b: string)
    ensures ToLower(a + b) == ToLower(a) + ToLower(b)
  {
  }

  // ---------------------------------------------------------------- search, split, join

  /** `s.includes(sub)`. */
  predicate Contains(s: string, sub: string) {
    exists i :: 0 <= i <= |s| - |sub| && OccursAt(s, sub, i)
  }

  predicate OccursAt(s: string, sub: string, i: int) {
    0 <= i <= |s| - |sub| && s[i..i + |sub|] == sub
  }

  /** `s.indexOf(c)`, with `|s|` standing for "not found". */
  function IndexOf(s: string, c: char): (i: nat)
    ensures i <= |s|
    ensures i < |s| ==> s[i] == c
    ensures forall k :: 0 <= k < i ==> s[k] != c
  {
    if s == [] then 0
    else if s[0] == c then 0
    else 1 + IndexOf(s[1..], c)
  }

  lemma AppendAssoc<T>(a: seq<T>, b: seq<T>, c: seq<T>)
    ensures (a + b) + c == a + (b + c)
  {
  }

  lemma OneLineConcat(a: seq<string>, b: seq<string>)
    requires forall k :: 0 <= k < |a| ==> '\n' !in a[k]
    requires forall k :: 0 <= k < |b| ==> '\n' !in b[k]
    ensures forall k :: 0 <= k < |a + b| ==> '\n' !in (a + b)[k]
  {
  }

  /** `xs.filter(keep)`: the kept elements, each as often as in `xs`; with
      `FilterConcat` and `FilterOne` also in their order. */
  function Filter<T(!new)>(xs: seq<T>, keep: T -> bool): (ys: seq<T>)
    ensures |ys| <= |xs|
    ensures forall x :: x in ys <==> x in xs && keep(x)
    ensures forall x {:trigger multiset(ys)[x]} :: multiset(ys)[x] == if keep(x) then multiset(xs)[x] else 0
  {
    if xs == [] then []
    else
      var rest := Filter(xs[1..], keep);
      assert xs == [xs[0]] + xs[1..];
      (if keep(xs[0]) then [xs[0]] else []) + rest
  }

  /** Filtering two lists one after the other filters each in turn. */
  lemma {:induction false} FilterConcat<T(!new)>(a: seq<T>, b: seq<T>, keep: T -> bool)
    ensures Filter(a + b, keep) == Filter(a, keep) + Filter(b, keep)
  {
    if a == [] {
      assert a + b == b;
    } else {
      var head := if keep(a[0]) then [a[0]] else [];
      assert (a + b)[0] == a[0] && (a + b)[1..] == a[1..] + b;
      assert Filter(a + b, keep) == head + Filter(a[1..] + b, keep);
      FilterConcat(a[1..], b, keep);
      assert Filter(a, keep) == head + Filter(a[1..], keep);
    }
  }

  /** A single element is kept or dropped. */
  lemma FilterOne<T(!new)>(x: T, keep: T -> bool)
    ensures Filter([x], keep) == if keep(x) then [x] else []
  {
    assert [x][1..] == [];
  }

  /** A filter that keeps every element gives the list back. */
  lemma {:induction false} FilterKeepsAll<T(!new)>(xs: seq<T>, keep: T -> bool)
    requires forall k :: 0 <= k < |xs| ==> keep(xs[k])
    ensures Filter(xs, keep) == xs
  {
    if xs != [] {
      FilterKeepsAll(xs[1..], keep);
    }
  }

  /** `xs.map(f)`. */
  function Map<T, U>(xs: seq<T>, f: T -> U): (ys: seq<U>)
    ensures |ys| == |xs|
    ensures forall k :: 0 <= k < |xs| ==> ys[k] == f(xs[k])
  {
    seq(|xs|, k requires 0 <= k < |xs| => f(xs[k]))
  }

  lemma MapHas<T, U>(xs: seq<T>, j: nat, f: T -> U)
    requires j < |xs|
    ensures f(xs[j]) in Map(xs, f)
  {
    assert Map(xs, f)[j] == f(xs[j]);
  }

  lemma MapSnoc<T, U>(xs: seq<T>, j: nat, f: T -> U)
    requires j < |xs|
    ensures Map(xs[..j + 1], f) == Map(xs[..j], f) + [f(xs[j])]
  {
    var a, b := Map(xs[..j + 1], f), Map(xs[..j], f) + [f(xs[j])];
    assert |a| == |b|;
    forall k | 0 <= k < |a|
      ensures a[k] == b[k]
    {
      if k < j {
        assert xs[..j + 1][k] == xs[..j][k];
      }
    }
  }

  /** `parts.join(sep)`. */
  function Join(parts: seq<string>, sep: string): string {
    if |parts| == 0 then ""
    else if |parts| == 1 then parts[0]
    else parts[0] + sep + Join(parts[1..], sep)
  }

  /** `s.split(sep)` for a one-character separator: the pieces between
      separators, none holding a separator. */
  function SplitOn(s: string, sep: char): (parts: seq<string>)
    ensures |parts| >= 1
    ensures forall k :: 0 <= k < |parts| ==> sep !in parts[k]
    decreases |s|
  {
    var i := IndexOf(s, sep);
    if i == |s| then
      [s]
    else
      var rest := SplitOn(s[i + 1..], sep);
      var parts := [s[..i]] + rest;
      assert parts[1..] == rest;
      parts
  }

  /** The pieces of a split join back to the text. */
  lemma {:induction false} SplitOnJoins(s: string, sep: char)
    ensures Join(SplitOn(s, sep), [sep]) == s
    decreases |s|
  {
    var i := IndexOf(s, sep);
    if i < |s| {
      SplitOnJoins(s[i + 1..], sep);
      var rest := SplitOn(s[i + 1..], sep);
      assert SplitOn(s, sep)[1..] == rest;
      assert s == s[..i] + [sep] + s[i + 1..];
    }
  }

  lemma {:induction false} JoinSingle(p: string, sep: string)
    ensures Join([p], sep) == p
  {
  }

  /** `c` is absent from `parts.join(sep)` when it is absent from every part and the separator. */
  lemma {:induction false} JoinExcludes(parts: seq<string>, sep: string, c: char)
    requires c !in sep
    requires forall k :: 0 <= k < |parts| ==> c !in parts[k]
    ensures c !in Join(parts, sep)
  {
    if |parts| > 1 {
      JoinExcludes(parts[1..], sep, c);
    }
  }

  /** Splitting joined text on its one-character separator gives the parts back,
      when no part holds the separator. */
  lemma {:induction false} SplitJoin(parts: seq<string>, c: char)
    requires |parts| >= 1
    requires forall k :: 0 <= k < |parts| ==> c !in parts[k]
    ensures SplitOn(Join(parts, [c]), c) == parts
  {
    var s := Join(parts, [c]);
    if |parts| == 1 {
      assert s == parts[0];
      IndexOfAbsent(s, c);
    } else {
      var p := parts[0];
      var rest := Join(parts[1..], [c]);
      assert s == p + [c] + rest;
      SplitCons(p, c, rest);
      SplitJoin(parts[1..], c);
      assert parts == [p] + parts[1..];
    }
  }

  /** A part that itself holds the separator reads, once joined, as the two
      parts on either side of it. */
  lemma {:induction false} JoinSplitPart(parts: seq<string>, i: nat, a: string, b: string, sep: string)
    requires i < |parts| && parts[i] == a + sep + b
    ensures Join(parts, sep) == Join(parts[..i] + [a, b] + parts[i + 1..], sep)
  {
    var split := parts[..i] + [a, b] + parts[i + 1..];
    if i == 0 {
      assert split == [a] + ([b] + parts[1..]);
      assert split[1..] == [b] + parts[1..];
      if |parts| > 1 {
        assert ([b] + parts[1..])[1..] == parts[1..];
      }
    } else {
      JoinSplitPart(parts[1..], i - 1, a, b, sep);
      assert split[0] == parts[0];
      assert split[1..] == parts[1..][..i - 1] + [a, b] + parts[1..][i..];
    }
  }

  /** A piece without the separator, then the separator, splits off first. */
  lemma SplitCons(p: string, c: char, rest: string)
    requires c !in p
    ensures SplitOn(p + [c] + rest, c) == [p] + SplitOn(rest, c)
  {
    var s := p + [c] + rest;
    assert s[..|p|] == p;
    IndexOfFirst(s, c, |p|);
    assert s[|p| + 1..] == rest;
  }

  lemma {:induction false} IndexOfAbsent(s: string, c: char)
    requires c !in s
    ensures IndexOf(s, c) == |s|
  {
    if s != [] {
      assert s == [s[0]] + s[1..];
      IndexOfAbsent(s[1..], c);
    }
  }

  lemma {:induction false} IndexOfFirst(s: string, c: char, j: nat)
    requires j < |s| && s[j] == c && c !in s[..j]
    ensures IndexOf(s, c) == j
  {
    if j > 0 {
      assert s[0] == s[..j][0];
      assert s[1..][..j - 1] == s[1..j];
      assert s[..j] == [s[0]] + s[1..j];
      IndexOfFirst(s[1..], c, j - 1);
    }
  }

  /** A CSV field wrapped in double quotes, with no escaping of inner quotes. */
  function Quote(s: string): (r: string)
    ensures |r| == |s| + 2 && r[0] == '"' && r[|r| - 1] == '"' && r[1..|r| - 1] == s
  {
    "\"" + s + "\""
  }

  /** Every field quoted, joined with commas. */
  function QuotedRow(fields: seq<string>): string {
    Join(seq(|fields|, k requires 0 <= k < |fields| => Quote(fields[k])), ",")
  }

  /** A quoted row has no line break when none of its fields has one. */
  lemma QuotedRowOneLine(fields: seq<string>)
    requires forall k :: 0 <= k < |fields| ==> '\n' !in fields[k]
    ensures '\n' !in QuotedRow(fields)
  {
    var q := seq(|fields|, k requires 0 <= k < |fields| => Quote(fields[k]));
    forall k | 0 <= k < |q|
      ensures '\n' !in q[k]
    {
      assert q[k] == "\"" + fields[k] + "\"";
    }
    JoinExcludes(q, ",", '\n');
  }

  /** `s.replaceAll(a, b)` for one-character patterns. */
  function ReplaceChar(s: string, a: char, b: char): (r: string)
    ensures |r| == |s|
    ensures forall k :: 0 <= k < |s| ==> r[k] == (if s[k] == a then b else s[k])
  {
    if s == [] then [] else [if s[0] == a then b else s[0]] + ReplaceChar(s[1..], a, b)
  }

  /** `s.replace(/\r/g, '')`. */
  function RemoveChar(s: string, a: char): (r: string)
    ensures a !in r
    ensures |r| <= |s|
    ensures a !in s ==> r == s
  {
    if s == [] then [] else (if s[0] == a then [] else [s[0]]) + RemoveChar(s[1..], a)
  }

  // ---------------------------------------------------------------- digits

  predicate IsDigit(c: char) {
    '0' <= c <= '9'
  }

  predicate AllDigits(s: string) {
    forall k :: 0 <= k < |s| ==> IsDigit(s[k])
  }

  function DigitChar(d: nat): (c: char)
    requires d < 10
    ensures IsDigit(c) && c as int - '0' as int == d
  {
    ('0' as int + d) as char
  }

  /** The value of a decimal digit string, read left to right. */
  function DigitsValue(s: string): nat
    requires AllDigits(s)
  {
    if s == [] then 0 else DigitsValue(s[..|s| - 1]) * 10 + (s[|s| - 1] as int - '0' as int)
  }

  /** Decimal text of a natural number, without leading zeros. */
  function NatToString(n: nat): (s: string)
    ensures |s| >= 1 && AllDigits(s)
    ensures DigitsValue(s) == n
    ensures |s| > 1 ==> s[0] != '0'
    decreases n
  {
    if n < 10 then [DigitChar(n)]
    else
      var s := NatToString(n / 10) + [DigitChar(n % 10)];
      assert s[..|s| - 1] == NatToString(n / 10);
      s
  }

  /** `String(i)` for an integer `i`. */
  function IntToString(i: int): (s: string)
    ensures s != [] && (s[0] == '-' <==> i < 0)
    ensures i >= 0 ==> AllDigits(s)
  {
    if i < 0 then "-" + NatToString(-i) else NatToString(i)
  }

  /** `s.padStart(2, '0')`. */
  function PadStart2(s: string): (r: string)
    ensures |r| == if |s| >= 2 then |s| else 2
    ensures forall k :: 0 <= k < |r| - |s| ==> r[k] == '0'
  {
    if |s| >= 2 then s else if |s| == 1 then "0" + s else "00"
  }

  lemma {:induction false} DigitsValueLeadingZeros(z: string, s: string)
    requires AllDigits(s)
    requires forall k :: 0 <= k < |z| ==> z[k] == '0'
    ensures AllDigits(z + s) && DigitsValue(z + s) == DigitsValue(s)
  {
    if s == [] {
      assert z + s == z;
      LeadingZerosValue(z);
    } else {
      var w := z + s;
      assert w[..|w| - 1] == z + s[..|s| - 1];
      DigitsValueLeadingZeros(z, s[..|s| - 1]);
    }
  }

  lemma {:induction false} LeadingZerosValue(z: string)
    requires forall k :: 0 <= k < |z| ==> z[k] == '0'
    ensures AllDigits(z) && DigitsValue(z) == 0
  {
    if z != [] {
      LeadingZerosValue(z[..|z| - 1]);
    }
  }

  /** Length of the longest all-digit prefix of `s`. */
  function DigitRun(s: string): (n: nat)
    ensures n <= |s|
    ensures forall k :: 0 <= k < n ==> IsDigit(s[k])
    ensures n < |s| ==> !IsDigit(s[n])
  {
    if s != [] && IsDigit(s[0]) then 1 + DigitRun(s[1..]) else 0
  }

  lemma {:induction false} DigitRunOf(a: string, b: string)
    requires AllDigits(a)
    requires b == [] || !IsDigit(b[0])
    ensures DigitRun(a + b) == |a|
  {
    if a != [] {
      assert (a + b)[1..] == a[1..] + b;
      DigitRunOf(a[1..], b);
    } else {
      assert a + b == b;
    }
  }

  lemma DigitNotWhite(c: char)
    requires IsDigit(c)
    ensures !IsWhite(c)
  {
  }

  function Pow10(k: nat): (p: nat)
    ensures p >= 1
  {
    if k == 0 then 1 else 10 * Pow10(k - 1)
  }

  // ---------------------------------------------------------------- parsing numbers

  /** `parseFloat(s)`: the longest decimal prefix after leading white space and an
      optional sign; `None` stands for NaN (no digit where one is required). */
  function ParseFloat(s: string): Option<real> {
    var t := TrimStart(s);
    if |t| > 0 && t[0] == '-' then
      match ParseUnsigned(t[1..])
      case None => None
      case Some(v) => Some(-v)
    else if |t| > 0 && t[0] == '+' then ParseUnsigned(t[1..])
    else ParseUnsigned(t)
  }

  /** The unsigned decimal prefix `digits [. digits]` of `u`, at least one digit. */
  function ParseUnsigned(u: string): Option<real> {
    var ip := DigitRun(u);
    var rest := u[ip..];
    var fp := if |rest| > 0 && rest[0] == '.' then DigitRun(rest[1..]) else 0;
    if ip == 0 && fp == 0 then None
    else
      var frac := if fp == 0 then 0.0 else DigitsValue(rest[1..][..fp]) as real / Pow10(fp) as real;
      Some(DigitsValue(u[..ip]) as real + frac)
  }

  /** `parseFloat(s) || 0`: NaN (and zero) read as 0. */
  function NumberOr0(s: string): real {
    match ParseFloat(s)
    case None => 0.0
    case Some(v) => v
  }

  /** `Number(s)` for the integer texts the payroll views produce: blank text is 0,
      an optionally signed digit string is its value, anything else is NaN (`None`). */
  function NumberToInt(s: string): Option<int> {
    var t := Trim(s);
    if t == "" then Some(0)
    else if t[0] == '-' && |t| > 1 && AllDigits(t[1..]) then Some(-(DigitsValue(t[1..]) as int))
    else if t[0] == '+' && |t| > 1 && AllDigits(t[1..]) then Some(DigitsValue(t[1..]))
    else if AllDigits(t) then Some(DigitsValue(t))
    else None
  }

  lemma NatToStringHasNoWhite(n: nat)
    ensures !IsWhite(NatToString(n)[0]) && !IsWhite(NatToString(n)[|NatToString(n)| - 1])
  {
  }

  /** `Number(String(i)) == i`. */
  lemma {:induction false} NumberOfIntToString(i: int)
    ensures NumberToInt(IntToString(i)) == Some(i)
  {
    var s := IntToString(i);
    NatToStringHasNoWhite(if i < 0 then -i else i);
    assert Trim(s) == s;
    if i < 0 {
      assert s[1..] == NatToString(-i);
    }
  }

  /** A digit string with its leading zeros kept reads as its value. */
  lemma NumberOfDigits(p: string)
    requires p != [] && AllDigits(p)
    ensures NumberToInt(p) == Some(DigitsValue(p) as int)
  {
    DigitNotWhite(p[0]);
    DigitNotWhite(p[|p| - 1]);
    assert Trim(p) == p;
  }

  /** `Number(String(i).padStart(2, '0')) == i`. */
  lemma {:induction false} NumberOfPadded(i: nat)
    ensures NumberToInt(PadStart2(NatToString(i))) == Some(i)
  {
    var d := NatToString(i);
    var p := PadStart2(d);
    var z := p[..|p| - |d|];
    assert p == z + d;
    DigitsValueLeadingZeros(z, d);
    NumberOfDigits(p);
  }

  // ---------------------------------------------------------------- rounding

  /** `Math.round(x)`: the nearest integer, halves rounded up. */
  function Round(x: real): (n: int)
    ensures x - 0.5 < n as real <= x + 0.5
  {
    (x + 0.5).Floor
  }

  /** `toFixed(2)` rounding of `|x|`, as a count of hundredths (halves rounded up). */
  function AbsCents(x: real): (n: nat)
    ensures -0.5 <= (if x < 0.0 then -x else x) * 100.0 - n as real < 0.5
  {
    var y := (if x < 0.0 then -x else x) * 100.0 + 0.5;
    assert y.Floor as real <= y < y.Floor as real + 1.0;
    assert y >= 0.5 && y.Floor as real > -0.5;
    y.Floor
  }

  /** `parseFloat(x.toFixed(2))` as a real: `x` rounded to the cent, halves away from zero. */
  function RoundCents(x: real): (r: real)
    ensures -0.005 <= x - r <= 0.005
  {
    CentsValue(x < 0.0, AbsCents(x))
  }

  /** The value of `n` hundredths, negated when `neg`. */
  function CentsValue(neg: bool, n: nat): real {
    if neg then -(n as real) / 100.0 else n as real / 100.0
  }

  /** `x.toFixed(2)`: optional minus sign, integer part, point, two digits. */
  function Fixed2(x: real): (s: string)
    ensures s != [] && (s[0] == '-' <==> x < 0.0)
  {
    SignedCentsText(x < 0.0, AbsCents(x))
  }

  /** `n` hundredths written as `units.hh`, after a minus sign when `neg`. */
  function SignedCentsText(neg: bool, n: nat): string {
    if neg then "-" + CentsText(n) else CentsText(n)
  }

  /** A count of hundredths written as `units.hh`. */
  function CentsText(n: nat): (s: string)
    ensures s != [] && IsDigit(s[0])
  {
    NatToString(n / 100) + "." + PadStart2(NatToString(n % 100))
  }

  /** The unsigned decimal reading of fixed-point text `q.r` with two fraction digits. */
  lemma {:induction false} ParseUnsignedFixed(q: string, r: string)
    requires q != [] && AllDigits(q) && |r| == 2 && AllDigits(r)
    ensures ParseUnsigned(q + "." + r) == Some(DigitsValue(q) as real + DigitsValue(r) as real / 100.0)
  {
    var body := q + "." + r;
    assert body == q + ("." + r);
    DigitRunOf(q, "." + r);
    var ip := DigitRun(body);
    assert body[..ip] == q;
    var rest := body[ip..];
    assert rest == "." + r;
    assert rest[1..] == r + "";
    DigitRunOf(r, "");
    var fp := DigitRun(rest[1..]);
    assert fp == 2 && rest[1..][..fp] == r;
    assert Pow10(fp) == 100;
    var frac := DigitsValue(rest[1..][..fp]) as real / Pow10(fp) as real;
    assert frac == DigitsValue(r) as real / 100.0;
    assert ParseUnsigned(body) == Some(DigitsValue(body[..ip]) as real + frac);
  }

  /** Text that starts with a digit is read by `parseFloat` without sign handling. */
  lemma ParseFloatDigitStart(s: string)
    requires s != [] && IsDigit(s[0])
    ensures ParseFloat(s) == ParseUnsigned(s)
  {
    DigitNotWhite(s[0]);
    assert TrimStart(s) == s;
  }

  /** Text that starts with a minus sign is read as the negated unsigned reading. */
  lemma ParseFloatMinus(body: string)
    ensures ParseFloat("-" + body) == match ParseUnsigned(body) case None => None case Some(v) => Some(-v)
  {
    var s := "-" + body;
    assert !IsWhite(s[0]);
    assert TrimStart(s) == s;
    assert s[1..] == body;
  }

  /** The unsigned reading of `units.hh` text for `n` hundredths is `n / 100`. */
  lemma {:induction false} ParseUnsignedCents(n: nat)
    ensures ParseUnsigned(CentsText(n)) == Some(n as real / 100.0)
  {
    var q, r := NatToString(n / 100), PadStart2(NatToString(n % 100));
    assert CentsText(n) == q + "." + r;
    PaddedNat(n % 100);
    ParseUnsignedFixed(q, r);
    CentsSplit(n);
  }

  /** `parseFloat` of `units.hh` text for `n` hundredths. */
  lemma ParseCentsText(s: string, n: nat)
    requires s == CentsText(n)
    ensures ParseFloat(s) == Some(n as real / 100.0)
  {
    ParseUnsignedCents(n);
    ParseFloatDigitStart(s);
  }

  /** `parseFloat` of `-units.hh` text for `n` hundredths. */
  lemma ParseNegCentsText(s: string, n: nat)
    requires s == "-" + CentsText(n)
    ensures ParseFloat(s) == Some(-(n as real) / 100.0)
  {
    ParseUnsignedCents(n);
    ParseFloatMinus(CentsText(n));
  }

  lemma CentsSplit(n: nat)
    ensures (n / 100) as real + (n % 100) as real / 100.0 == n as real / 100.0
  {
    var a, b := n / 100, n % 100;
    assert n == a * 100 + b;
    assert n as real == a as real * 100.0 + b as real;
  }

  lemma {:induction false} ParseSignedCentsText(neg: bool, n: nat)
    ensures ParseFloat(SignedCentsText(neg, n)) == Some(CentsValue(neg, n))
  {
    if neg { ParseSignedCentsNeg(n); } else { ParseSignedCentsPos(n); }
  }

  lemma ParseSignedCentsPos(n: nat)
    ensures ParseFloat(SignedCentsText(false, n)) == Some(CentsValue(false, n))
  {
    ParseCentsText(SignedCentsText(false, n), n);
  }

  lemma ParseSignedCentsNeg(n: nat)
    ensures ParseFloat(SignedCentsText(true, n)) == Some(CentsValue(true, n))
  {
    ParseNegCentsText(SignedCentsText(true, n), n);
  }

  /** Reading `toFixed(2)` text back with `parseFloat` gives the value rounded to
      the cent: `parseFloat(x.toFixed(2)) == RoundCents(x)`. */
  lemma ParseFixed2(x: real)
    ensures ParseFloat(Fixed2(x)) == Some(RoundCents(x))
  {
    ParseSignedCentsText(x < 0.0, AbsCents(x));
  }

  /** `toFixed(2)` text holds only a sign, digits and a point. */
  lemma Fixed2Excludes(x: real, c: char)
    requires c != '-' && c != '.' && !IsDigit(c)
    ensures c !in Fixed2(x)
  {
    var n := AbsCents(x);
    var q, r := NatToString(n / 100), PadStart2(NatToString(n % 100));
    PaddedNat(n % 100);
    assert forall k :: 0 <= k < |q| ==> q[k] != c;
    assert forall k :: 0 <= k < |r| ==> r[k] != c;
    assert CentsText(n) == q + "." + r;
  }

  /** `toFixed(2)` text is one line. */
  lemma Fixed2OneLine(x: real)
    ensures '\n' !in Fixed2(x)
  {
    var n := AbsCents(x);
    var q, r := NatToString(n / 100), PadStart2(NatToString(n % 100));
    PaddedNat(n % 100);
    assert forall k :: 0 <= k < |q| ==> q[k] != '\n';
    assert forall k :: 0 <= k < |r| ==> r[k] != '\n';
    assert CentsText(n) == q + "." + r;
  }

  /** `String(m).padStart(2, '0')` is two digits worth `m`, for `m < 100`. */
  lemma PaddedNat(m: nat)
    requires m < 100
    ensures |PadStart2(NatToString(m))| == 2
    ensures AllDigits(PadStart2(NatToString(m))) && DigitsValue(PadStart2(NatToString(m))) == m
  {
    var d := NatToString(m);
    if m >= 10 {
      assert NatToString(m / 10) == [DigitChar(m / 10)];
    }
    assert |d| <= 2;
    var r := PadStart2(d);
    var z := r[..|r| - |d|];
    assert r == z + d;
    DigitsValueLeadingZeros(z, d);
  }
}
