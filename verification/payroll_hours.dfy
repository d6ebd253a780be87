/// Hours shown as `H:mm` text in the payroll views: the conversion of decimal
/// payable hours to `H:mm`, and the sum of a list of `H:mm` texts.
module PayrollHours {
  import opened Text

  // ---------------------------------------------------------------- decimal hours to H:mm

  /** The minutes part of `decimalToHHmm`: the fraction of an hour, times 60, rounded. */
  function MinutesPart(d: real): (m: nat)
    ensures m <= 60
  {
    var f := d - d.Floor as real;
    Round(f * 60.0)
  }

  /** `decimalToHHmm(d)`: whole hours, a colon, and the minutes padded to two digits. */
  function DecimalToHHmm(d: real): string {
    IntToString(d.Floor) + ":" + PadStart2(IntToString(MinutesPart(d)))
  }

  /** The minutes part can reach 60: `decimalToHHmm(1.999)` is `"1:60"`, not `"2:00"`. */
  lemma SixtyMinutes()
    ensures DecimalToHHmm(1.999) == "1:60"
  {
    assert (1.999).Floor == 1;
    assert MinutesPart(1.999) == 60;
    assert NatToString(6) == "6";
    assert NatToString(60) == NatToString(6) + [DigitChar(0)];
  }

  /** `Math.round` commutes with adding a whole number. */
  lemma RoundShift(x: real, n: int)
    ensures Round(x + n as real) == Round(x) + n
  {
    var a, b := Round(x + n as real), Round(x) + n;
    assert x + n as real - 0.5 < a as real <= x + n as real + 0.5;
    assert x + n as real - 0.5 < b as real <= x + n as real + 0.5;
  }

  // ---------------------------------------------------------------- reading H:mm back

  /** The minutes that `Number` reads from one `H:mm` text, `hours * 60 + minutes`;
      `None` stands for NaN (a missing minutes part or a part that is not a number). */
  function TextMinutes(time: string): Option<int> {
    var parts := SplitOn(time, ':');
    if |parts| < 2 then None
    else
      match (NumberToInt(parts[0]), NumberToInt(parts[1]))
      case (Some(h), Some(m)) => Some(h * 60 + m)
      case _ => None
  }

  /** The minutes read from each text, in order. */
  function Readings(times: seq<string>): (ms: seq<Option<int>>)
    ensures |ms| == |times|
    ensures forall k {:trigger ms[k]} :: 0 <= k < |times| ==> ms[k] == TextMinutes(times[k])
  {
    seq(|times|, k requires 0 <= k < |times| => TextMinutes(times[k]))
  }

  /** Readings added left to right; NaN once any reading is NaN. */
  function AddUp(ms: seq<Option<int>>): Option<int> {
    if ms == [] then Some(0) else Plus(AddUp(ms[..|ms| - 1]), ms[|ms| - 1])
  }

  /** `t + m`, where NaN on either side gives NaN. */
  function Plus(t: Option<int>, m: Option<int>): (r: Option<int>)
    ensures r.Some? <==> t.Some? && m.Some?
    ensures r.Some? ==> r.value == t.value + m.value
  {
    if t.Some? && m.Some? then Some(t.value + m.value) else None
  }

  /** The minutes of all texts, as `reduce` adds them up. */
  function TotalMinutes(times: seq<string>): Option<int> {
    AddUp(Readings(times))
  }

  /** JavaScript's `a % b`, whose sign follows the dividend. */
  function TruncRem(a: int, b: int): (r: int)
    requires b > 0
    ensures -b < r < b
    ensures a >= 0 ==> r == a % b
    ensures a < 0 ==> r == -((-a) % b)
    ensures (a < 0 ==> r <= 0) && (a - r) % b == 0
  {
    if a >= 0 then RemDiff(a, b); a % b else NegRem(a, b); -((-a) % b)
  }

  /** Taking away the remainder reaches a multiple of `b`. */
  lemma RemDiff(a: int, b: int)
    requires b > 0
    ensures (a - a % b) % b == 0
  {
    assert a - a % b == b * (a / b);
    MulMod(b, a / b);
  }

  /** Adding back the remainder of the negated dividend reaches a multiple of `b`. */
  lemma NegRem(a: int, b: int)
    requires b > 0 && a < 0
    ensures (a + (-a) % b) % b == 0
  {
    var q := (-a) / b;
    assert -a == b * q + (-a) % b;
    assert a + (-a) % b == b * (-q);
    MulMod(b, -q);
  }

  lemma MulMod(b: int, k: int)
    requires b > 0
    ensures (b * k) % b == 0
  {
    var m := (b * k) % b;
    var d := (b * k) / b;
    var j := k - d;
    assert b * k == b * d + m;
    assert b * j == m by { assert b * k - b * d == b * (k - d); }
    if j > 0 {
      MulAtLeast(b, j);
    } else if j < 0 {
      MulAtLeast(b, -j);
    }
  }

  lemma MulAtLeast(b: int, j: int)
    requires b > 0 && j > 0
    ensures b * j >= b
  {
    assert b * j == b + b * (j - 1);
    assert b * (j - 1) >= 0;
  }

  /** A count of minutes written as `Math.floor(t / 60)`, a colon, and `t % 60` padded. */
  function FormatMinutes(t: int): string {
    IntToString(t / 60) + ":" + PadStart2(IntToString(TruncRem(t, 60)))
  }

  /** `sumHHmmTimes(times)`: `"NaN:NaN"` when any text is not a number. */
  function SumText(times: seq<string>): string {
    match TotalMinutes(times)
    case None => "NaN:NaN"
    case Some(t) => FormatMinutes(t)
  }

  /** `sumHHmmTimes`: adds up the minutes of every text in one pass, then formats. */
  method SumHHmmTimes(times: seq<string>) returns (s: string)
    ensures s == SumText(times)
  {
    ghost var ms := Readings(times);
    var total := 0;
    var nan := false;
    var i := 0;
    while i < |times|
      invariant 0 <= i <= |times|
      invariant AddUp(ms[..i]) == if nan then None else Some(total)
    {
      var m := TextMinutes(times[i]);
      AddUpStep(ms, i, nan, total);
      if m.Some? {
        total := total + m.value;
      } else {
        nan := true;
      }
      i := i + 1;
    }
    assert ms[..i] == ms;
    SumTextOf(times, if nan then None else Some(total));
    if nan {
      s := "NaN:NaN";
    } else {
      s := FormatMinutes(total);
    }
  }

  lemma SumTextOf(times: seq<string>, t: Option<int>)
    requires AddUp(Readings(times)) == t
    ensures SumText(times) == if t.None? then "NaN:NaN" else FormatMinutes(t.value)
  {
  }

  /** One more reading: NaN stays NaN, and a number adds up. */
  lemma AddUpStep(ms: seq<Option<int>>, i: nat, nan: bool, total: int)
    requires i < |ms| && AddUp(ms[..i]) == if nan then None else Some(total)
    ensures AddUp(ms[..i + 1]) == if nan || ms[i].None? then None else Some(total + ms[i].value)
  {
    assert ms[..i + 1][..i] == ms[..i];
  }

  // ---------------------------------------------------------------- round trips

  /** Integer text holds only digits and a minus sign, padded or not. */
  lemma IntTextExcludes(i: int, c: char)
    requires c != '-' && !IsDigit(c)
    ensures c !in IntToString(i)
    ensures c !in PadStart2(IntToString(i))
  {
    var n := NatToString(if i < 0 then -i else i);
    assert AllDigits(n);
    var s := IntToString(i);
    assert s == (if i < 0 then "-" + n else n);
    assert c !in s;
    var p := PadStart2(s);
    assert p == s || p == "0" + s || p == "00";
  }

  /** Integer text holds no colon. */
  lemma IntTextNoColon(i: int)
    ensures ':' !in IntToString(i)
    ensures ':' !in PadStart2(IntToString(i))
  {
    IntTextExcludes(i, ':');
  }

  /** The sum of `H:mm` texts is one line. */
  lemma SumTextOneLine(times: seq<string>)
    ensures '\n' !in SumText(times)
  {
    match TotalMinutes(times)
    case None =>
      var nan := "NaN:NaN";
      assert forall j :: 0 <= j < |nan| ==> nan[j] != '\n';
    case Some(t) =>
      IntTextExcludes(t / 60, '\n');
      IntTextExcludes(TruncRem(t, 60), '\n');
  }

  /** Splitting `a:b` on the colon gives `a` and `b` when neither holds a colon. */
  lemma SplitColon(a: string, b: string)
    requires ':' !in a && ':' !in b
    ensures SplitOn(a + ":" + b, ':') == [a, b]
  {
    assert Join([a, b], [':']) == a + ":" + b;
    SplitJoin([a, b], ':');
  }

  /** The minutes of `a:b` are read from the two parts. */
  lemma ReadParts(a: string, b: string, h: int, m: int)
    requires ':' !in a && ':' !in b
    requires NumberToInt(a) == Some(h) && NumberToInt(b) == Some(m)
    ensures TextMinutes(a + ":" + b) == Some(h * 60 + m)
  {
    SplitColon(a, b);
  }

  /** `m` written by `String(m).padStart(2, '0')` reads back as `m`. */
  lemma ReadPadded(m: int)
    ensures NumberToInt(PadStart2(IntToString(m))) == Some(m)
  {
    if m >= 0 {
      NumberOfPadded(m);
    } else {
      assert |IntToString(m)| >= 2;
      NumberOfIntToString(m);
    }
  }

  /** `H:mm` text built from two integers reads back as `h * 60 + m`. */
  lemma ReadHoursMinutes(h: int, m: int)
    ensures TextMinutes(IntToString(h) + ":" + PadStart2(IntToString(m))) == Some(h * 60 + m)
  {
    IntTextNoColon(h);
    IntTextNoColon(m);
    NumberOfIntToString(h);
    ReadPadded(m);
    ReadParts(IntToString(h), PadStart2(IntToString(m)), h, m);
  }

  /** The `H:mm` text of decimal hours stands for the hours in minutes, rounded. */
  lemma DecimalToHHmmMinutes(d: real)
    ensures TextMinutes(DecimalToHHmm(d)) == Some(Round(d * 60.0))
  {
    var h, m := d.Floor, MinutesPart(d);
    ReadHoursMinutes(h, m);
    MinutesOfDecimal(d);
  }

  /** Whole hours and the rounded minutes part add up to the rounded minutes. */
  lemma MinutesOfDecimal(d: real)
    ensures d.Floor * 60 + MinutesPart(d) == Round(d * 60.0)
  {
    var h := d.Floor;
    RoundShift((d - h as real) * 60.0, h * 60);
    assert (d - h as real) * 60.0 + (h * 60) as real == d * 60.0;
  }

  /** A non-negative total is normalised: its minutes part is below 60 and the
      text reads back as the same total. */
  lemma FormatMinutesNormalised(t: int)
    requires t >= 0
    ensures 0 <= TruncRem(t, 60) < 60
    ensures TextMinutes(FormatMinutes(t)) == Some(t)
  {
    var h, m := t / 60, t % 60;
    assert TruncRem(t, 60) == m;
    assert FormatMinutes(t) == IntToString(h) + ":" + PadStart2(IntToString(m));
    ReadHoursMinutes(h, m);
    assert h * 60 + m == t;
  }

  /** A negative total is not: `-30` minutes are written `"-1:-30"`, because the
      hours are floored and the remainder is truncated, and that text reads back
      as -90 minutes. */
  lemma NegativeTotalMisread()
    ensures FormatMinutes(-30) == IntToString(-1) + ":" + PadStart2(IntToString(-30))
    ensures TextMinutes(FormatMinutes(-30)) == Some(-90)
  {
    assert -30 / 60 == -1;
    ReadHoursMinutes(-1, -30);
  }

  /** The text of `-30` minutes, spelled out. */
  lemma NegativeTotalText()
    ensures FormatMinutes(-30) == "-1:-30"
  {
    assert -30 / 60 == -1;
    assert NatToString(1) == "1";
    assert NatToString(3) == "3";
    assert NatToString(30) == NatToString(3) + [DigitChar(0)];
  }

  /** The `H:mm` texts of a list of decimal hours, in order. */
  function HHmmTexts(ds: seq<real>): (ts: seq<string>)
    ensures |ts| == |ds|
    ensures forall k :: 0 <= k < |ds| ==> ts[k] == DecimalToHHmm(ds[k])
  {
    seq(|ds|, k requires 0 <= k < |ds| => DecimalToHHmm(ds[k]))
  }

  /** Every hour count rounded to the minute. */
  function RoundedMinutes(ds: seq<real>): (ms: seq<int>)
    ensures |ms| == |ds|
    ensures forall k :: 0 <= k < |ds| ==> ms[k] == Round(ds[k] * 60.0)
  {
    seq(|ds|, k requires 0 <= k < |ds| => Round(ds[k] * 60.0))
  }

  function Sum(ms: seq<int>): int {
    if ms == [] then 0 else Sum(ms[..|ms| - 1]) + ms[|ms| - 1]
  }

  /** Texts whose minutes are all numbers add up to the sum of those minutes. */
  lemma TotalOfReadable(ts: seq<string>, ms: seq<int>)
    requires |ts| == |ms|
    requires forall k :: 0 <= k < |ts| ==> TextMinutes(ts[k]) == Some(ms[k])
    ensures TotalMinutes(ts) == Some(Sum(ms))
  {
    AddUpSome(Readings(ts), ms);
  }

  lemma {:induction false} AddUpSome(os: seq<Option<int>>, ms: seq<int>)
    requires |os| == |ms|
    requires forall k :: 0 <= k < |os| ==> os[k] == Some(ms[k])
    ensures AddUp(os) == Some(Sum(ms))
  {
    if os != [] {
      var n := |os| - 1;
      AddUpSome(os[..n], ms[..n]);
    }
  }

  /** The `H:mm` texts of a list of decimal hours add up to the sum of their
      hours in minutes, each rounded. */
  lemma TotalOfDecimals(ds: seq<real>)
    ensures TotalMinutes(HHmmTexts(ds)) == Some(Sum(RoundedMinutes(ds)))
  {
    var ts, ms := HHmmTexts(ds), RoundedMinutes(ds);
    EachDecimalRead(ds, ts, ms);
    TotalOfReadable(ts, ms);
  }

  lemma EachDecimalRead(ds: seq<real>, ts: seq<string>, ms: seq<int>)
    requires |ts| == |ds| && forall k :: 0 <= k < |ds| ==> ts[k] == DecimalToHHmm(ds[k])
    requires |ms| == |ds| && forall k :: 0 <= k < |ds| ==> ms[k] == Round(ds[k] * 60.0)
    ensures forall k :: 0 <= k < |ts| ==> TextMinutes(ts[k]) == Some(ms[k])
  {
    forall k | 0 <= k < |ts|
      ensures TextMinutes(ts[k]) == Some(ms[k])
    {
      var d, t, m := ds[k], ts[k], ms[k];
      assert t == DecimalToHHmm(d) && m == Round(d * 60.0);
      DecimalToHHmmMinutes(d);
    }
  }
}
