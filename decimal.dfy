/**
 * The exact value Python's `float()` gives a string made only of digits and
 * dots, which is all the monitor ever hands it: the text of a `[\d.]+`
 * match. IEEE-754 rounding is not modelled; values are exact rationals.
 */
module Decimal {
  import opened Wrappers
  import opened Text

  function DigitValue(c: char): (d: nat)
    requires IsDigit(c)
    ensures d < 10
  {
    c as int - '0' as int
  }

  function DigitChar(d: nat): (c: char)
    requires d < 10
    ensures IsDigit(c) && DigitValue(c) == d
  {
    ('0' as int + d) as char
  }

  function Pow10(k: nat): (p: nat)
    ensures p >= 1
  {
    if k == 0 then 1 else 10 * Pow10(k - 1)
  }

  /** The exact quotient `n / d`. */
  function Ratio(n: nat, d: nat): (r: real)
    requires d > 0
    ensures r >= 0.0
  {
    n as real / d as real
  }

  /** The natural number a string of decimal digits denotes, most significant digit first. */
  function DigitsValue(ds: string): (n: nat)
    requires AllDigits(ds)
  {
    if ds == [] then 0 else DigitsValue(ds[..|ds| - 1]) * 10 + DigitValue(ds[|ds| - 1])
  }

  /** Index of the first `.` in `s`, or `|s|` when there is none. */
  function DotIndex(s: string): (k: nat)
    ensures k <= |s|
    ensures forall j :: 0 <= j < k ==> s[j] != '.'
    ensures k < |s| ==> s[k] == '.'
  {
    if s == [] || s[0] == '.' then 0 else 1 + DotIndex(s[1..])
  }

  /** The strings of digits and dots that `float()` accepts: at most one dot and at least one digit. */
  predicate WellFormed(run: string) {
    multiset(run)['.'] <= 1 && exists k :: 0 <= k < |run| && IsDigit(run[k])
  }

  /**
   * `float(run)` for a run of digits and dots: all the digits read as one
   * integer (the mantissa), divided by ten to the number of digits after the
   * one dot (the scale); `None` where `float()` raises `ValueError` ("." alone,
   * two or more dots, the empty string).
   */
  function DecimalValue(run: string): (r: Option<real>)
    requires AllRunChars(run)
    ensures r.Some? <==> WellFormed(run)
    ensures r.Some? ==> r.value >= 0.0
  {
    var k := DotIndex(run);
    WellFormedSplit(run, k);
    if k == |run| then
      if run == [] then None else Some(DigitsValue(run) as real)
    else
      var frac := run[k + 1..];
      if '.' in frac || (k == 0 && frac == []) then None
      else
        assert AllDigits(run[..k] + frac);
        Some(Ratio(DigitsValue(run[..k] + frac), Pow10(|frac|)))
  }

  /** How `WellFormed` reads once the first dot is located. */
  lemma WellFormedSplit(run: string, k: nat)
    requires AllRunChars(run) && k == DotIndex(run)
    ensures k == |run| ==> (WellFormed(run) <==> run != [])
    ensures k < |run| ==> (WellFormed(run) <==> '.' !in run[k + 1..] && (k > 0 || k + 1 < |run|))
  {
    if k == |run| {
      WellFormedNoDot(run);
    } else {
      WellFormedFirstDot(run, k);
    }
  }

  /** Without a dot, any digit at all makes a run well formed. */
  lemma WellFormedNoDot(run: string)
    requires AllRunChars(run) && forall j :: 0 <= j < |run| ==> run[j] != '.'
    ensures WellFormed(run) <==> run != []
  {
    assert '.' !in run;
    if run != [] {
      assert IsDigit(run[0]);
    }
  }

  /** With its first dot at `k`, a run is well formed when no other dot follows and a digit sits on either side. */
  lemma WellFormedFirstDot(run: string, k: nat)
    requires AllRunChars(run) && k < |run| && run[k] == '.'
    requires forall j :: 0 <= j < k ==> run[j] != '.'
    ensures WellFormed(run) <==> '.' !in run[k + 1..] && (k > 0 || k + 1 < |run|)
  {
    var frac := run[k + 1..];
    assert multiset(run)['.'] == 1 + multiset(frac)['.'] by {
      assert run == run[..k] + ['.'] + frac;
      assert '.' !in run[..k];
    }
    if '.' !in frac && (k > 0 || k + 1 < |run|) {
      var d := if k > 0 then 0 else k + 1;
      assert IsDigit(run[d]);
    }
    if WellFormed(run) {
      var j :| 0 <= j < |run| && IsDigit(run[j]);
      assert j != k;
    }
  }

  /** Reading digits left to right: the value of `a + b` shifts `a` by the length of `b`. */
  lemma {:induction false} DigitsValueAppend(a: string, b: string)
    requires AllDigits(a) && AllDigits(b)
    ensures DigitsValue(a + b) == DigitsValue(a) * Pow10(|b|) + DigitsValue(b)
  {
    if b == [] {
      assert a + b == a;
    } else {
      var b' := b[..|b| - 1];
      assert (a + b)[..|a + b| - 1] == a + b';
      assert (a + b)[|a + b| - 1] == b[|b| - 1];
      DigitsValueAppend(a, b');
      var x, y, d := DigitsValue(a), DigitsValue(b'), DigitValue(b[|b| - 1]);
      assert DigitsValue(a + b) == (x * Pow10(|b'|) + y) * 10 + d;
      ShiftDigit(x, Pow10(|b'|), y, d);
    }
  }

  lemma ShiftDigit(x: int, p: int, y: int, d: int)
    ensures (x * p + y) * 10 + d == x * (10 * p) + (y * 10 + d)
  {
  }

  function Zeros(n: nat): (z: string)
    ensures |z| == n && AllDigits(z) && DigitsValue(z) == 0
  {
    if n == 0 then [] else Zeros(n - 1) + ['0']
  }

  /** The shortest decimal digits of `n` (the partner of `DigitsValue`). */
  function NatDigits(n: nat): (ds: string)
    ensures |ds| >= 1 && AllDigits(ds)
    ensures DigitsValue(ds) == n
    decreases n
  {
    if n < 10 then [DigitChar(n)]
    else
      var ds := NatDigits(n / 10) + [DigitChar(n % 10)];
      assert ds[..|ds| - 1] == NatDigits(n / 10);
      ds
  }

  /** The digits of `m`, padded with leading zeros to at least `width` digits. */
  function PaddedDigits(m: nat, width: nat): (ds: string)
    ensures |ds| >= width && AllDigits(ds) && DigitsValue(ds) == m
  {
    var ds := NatDigits(m);
    var zs := Zeros(if |ds| < width then width - |ds| else 0);
    assert AllDigits(zs + ds) && DigitsValue(zs + ds) == m by {
      AppendDigits(zs, ds);
      DigitsValueAppend(zs, ds);
    }
    zs + ds
  }

  lemma AppendDigits(a: string, b: string)
    requires AllDigits(a) && AllDigits(b)
    ensures AllDigits(a + b)
  {
  }

  /** `m / 10^k` written with exactly `k` digits after the point (no point when `k` is 0), as `'%.*f'` would. */
  function FormatFixed(m: nat, k: nat): string {
    if k == 0 then NatDigits(m)
    else
      var ds := PaddedDigits(m, k + 1);
      ds[..|ds| - k] + ['.'] + ds[|ds| - k..]
  }

  /** A formatted number is a nonempty run of digits and dots that starts with a digit. */
  lemma FormatFixedShape(m: nat, k: nat)
    ensures var s := FormatFixed(m, k); AllRunChars(s) && |s| > 0 && IsDigit(s[0])
  {
    if k > 0 {
      var ip, fp := FormatFixedParts(m, k);
      PointedValue(ip, fp);
      assert (ip + ['.'] + fp)[0] == ip[0];
    }
  }

  /** With `k > 0`: the integer digits (at least one) and the `k` fraction digits on either side of the point. */
  lemma FormatFixedParts(m: nat, k: nat) returns (ip: string, fp: string)
    requires k > 0
    ensures AllDigits(ip) && AllDigits(fp) && |ip| > 0 && |fp| == k
    ensures DigitsValue(ip + fp) == m
    ensures FormatFixed(m, k) == ip + ['.'] + fp
  {
    var ds := PaddedDigits(m, k + 1);
    ip, fp := ds[..|ds| - k], ds[|ds| - k..];
    assert FormatFixed(m, k) == ip + ['.'] + fp;
    SliceDigits(ds, |ds| - k);
  }

  lemma SliceDigits(ds: string, n: nat)
    requires AllDigits(ds) && n <= |ds|
    ensures AllDigits(ds[..n]) && AllDigits(ds[n..]) && ds[..n] + ds[n..] == ds
  {
  }

  /** A string of digits with one dot and at least one digit is read as its digits over ten to the length of the fraction. */
  lemma PointedValue(ip: string, fp: string)
    requires AllDigits(ip) && AllDigits(fp) && |ip| + |fp| > 0
    ensures AllRunChars(ip + ['.'] + fp) && AllDigits(ip + fp)
    ensures DecimalValue(ip + ['.'] + fp) == Some(Ratio(DigitsValue(ip + fp), Pow10(|fp|)))
  {
    var s := ip + ['.'] + fp;
    var d := DotIndex(s);
    assert s[|ip|] == '.';
    assert forall j :: 0 <= j < |ip| ==> s[j] == ip[j];
    assert d == |ip|;
    assert s[..|ip|] == ip && s[|ip| + 1..] == fp;
    assert '.' !in fp;
  }

  /** A run with two dots is refused. */
  lemma TwoDotsRejected(a: string, b: string, c: string)
    requires AllRunChars(a) && AllRunChars(b) && AllRunChars(c)
    ensures AllRunChars(a + "." + b + "." + c)
    ensures DecimalValue(a + "." + b + "." + c) == None
  {
    var t := a + "." + b + "." + c;
    assert multiset(t) == multiset(a) + multiset{'.'} + multiset(b) + multiset{'.'} + multiset(c);
    assert multiset(t)['.'] >= 2;
  }

  /** A dot alone is refused. */
  lemma LoneDotRejected()
    ensures AllRunChars(".") && DecimalValue(".") == None
  {
    WellFormedFirstDot(".", 0);
  }

  /** A string of digits without a dot is read as the integer it spells. */
  lemma WholeValue(ds: string)
    requires AllDigits(ds) && |ds| > 0
    ensures AllRunChars(ds)
    ensures DecimalValue(ds) == Some(DigitsValue(ds) as real)
  {
    assert forall j :: 0 <= j < |ds| ==> ds[j] != '.';
  }

  /** Round trip: `float()` reads back exactly the number that was formatted. */
  lemma FormatFixedRoundTrip(m: nat, k: nat)
    ensures DecimalValue(FormatFixed(m, k)) == Some(Ratio(m, Pow10(k)))
  {
    if k == 0 {
      WholeRoundTrip(m);
    } else {
      PointedRoundTrip(m, k);
    }
  }

  lemma WholeRoundTrip(m: nat)
    ensures DecimalValue(FormatFixed(m, 0)) == Some(Ratio(m, Pow10(0)))
  {
    WholeValue(NatDigits(m));
    assert FormatFixed(m, 0) == NatDigits(m);
    assert Pow10(0) == 1;
    assert Ratio(m, 1) == m as real;
  }

  lemma PointedRoundTrip(m: nat, k: nat)
    requires k > 0
    ensures DecimalValue(FormatFixed(m, k)) == Some(Ratio(m, Pow10(k)))
  {
    var ip, fp := FormatFixedParts(m, k);
    PointedValue(ip, fp);
  }

  lemma Digits2039()
    ensures DigitsValue("2039") == 2039
  {
    assert "2039"[..3] == "203" && "203"[..2] == "20" && "20"[..1] == "2" && "2"[..0] == "";
  }

  lemma Digits2040()
    ensures DigitsValue("2040") == 2040
  {
    assert "2040"[..3] == "204" && "204"[..2] == "20" && "20"[..1] == "2" && "2"[..0] == "";
  }

  lemma Digits123456()
    ensures DigitsValue("123456") == 123456
  {
    assert "123456"[..5] == "12345" && "12345"[..4] == "1234" && "1234"[..3] == "123";
    assert "123"[..2] == "12" && "12"[..1] == "1" && "1"[..0] == "";
  }

  lemma TwoDigits(ds: string)
    requires |ds| == 2 && AllDigits(ds)
    ensures DigitsValue(ds) == 10 * DigitValue(ds[0]) + DigitValue(ds[1])
  {
    var head := ds[..1];
    assert head[..0] == "" && head[0] == ds[0];
    assert DigitsValue(head) == DigitValue(ds[0]);
  }
}
