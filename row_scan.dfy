/**
 * The row scan of `SatUSDMonitor.get_liquidity_from_page`: the visible text of
 * every table row is searched for the `satUSD-v1` marker, then for the
 * pattern `([\d.]+)\s*satUSD-v1\s*\$?([\d.]+)`, then for the `$` amounts.
 * The first row that yields a value ends the scan.
 */
module RowScan {
  import opened Wrappers
  import opened Text
  import opened Decimal

  /** The pool name the code looks for in each row. */
  const Marker: string := "satUSD-v1"

  /*
   * The primary pattern `([\d.]+)\s*satUSD-v1\s*\$?([\d.]+)`.
   */

  /**
   * One way the primary pattern matches the text `s[p..h]`: group 1 is
   * `s[p..a]`, the spaces `s[a..b]`, the marker at `b`, the spaces up to `c`,
   * an optional `$` and group 2 `s[g..h]`.
   */
  predicate PrimaryShape(s: string, p: nat, a: nat, b: nat, c: nat, g: nat, h: nat) {
    && p < a <= b && b + |Marker| <= c <= g < h <= |s|
    && (forall k :: p <= k < a ==> IsRunChar(s[k]))
    && (forall k :: a <= k < b ==> IsSpace(s[k]))
    && OccursAt(s, Marker, b)
    && (forall k :: b + |Marker| <= k < c ==> IsSpace(s[k]))
    && (g == c || (g == c + 1 && s[c] == '$'))
    && (forall k :: g <= k < h ==> IsRunChar(s[k]))
  }

  /** A `$` at `i` directly followed by a digit or a dot. */
  predicate DollarAt(s: string, i: nat) {
    i + 1 < |s| && s[i] == '$' && IsRunChar(s[i + 1])
  }

  /**
   * `\$?([\d.]+)` at `c`: the `$` is taken when a digit or a dot follows it,
   * and group 2 runs as far as digits and dots go.
   */
  function GroupTwo(s: string, c: nat): (r: Option<(nat, nat)>)
    requires c <= |s|
    ensures r.Some? ==> c <= r.value.0 < r.value.1 <= |s|
    ensures r.Some? ==> r.value.0 == c || (r.value.0 == c + 1 && s[c] == '$')
    ensures r.Some? ==> forall k :: r.value.0 <= k < r.value.1 ==> IsRunChar(s[k])
    ensures r.Some? ==> r.value.1 == |s| || !IsRunChar(s[r.value.1])
  {
    if DollarAt(s, c) then Some((c + 1, RunEnd(s, c + 1)))
    else if c < |s| && IsRunChar(s[c]) then Some((c, RunEnd(s, c)))
    else None
  }

  /**
   * The primary pattern tried at position `p`, as Python's backtracking
   * matcher resolves it: the span of group 2, or `None` if the pattern does
   * not match there. Group 1 and both runs of white space are greedy.
   */
  function PrimaryAt(s: string, p: nat): (r: Option<(nat, nat)>)
    requires p <= |s|
    ensures r.Some? ==> p < r.value.0 < r.value.1 <= |s|
    ensures r.Some? ==> forall k :: r.value.0 <= k < r.value.1 ==> IsRunChar(s[k])
    ensures r.Some? ==> r.value.1 == |s| || !IsRunChar(s[r.value.1])
  {
    var a := RunEnd(s, p);
    if a == p then None
    else
      var b := SpaceEnd(s, a);
      if OccursAt(s, Marker, b) then GroupTwo(s, SpaceEnd(s, b + |Marker|)) else None
  }

  /** Every match the matcher reports is a match of the pattern. */
  lemma PrimaryAtSound(s: string, p: nat)
    requires p <= |s| && PrimaryAt(s, p).Some?
    ensures exists a, b, c :: PrimaryShape(s, p, a, b, c, PrimaryAt(s, p).value.0, PrimaryAt(s, p).value.1)
  {
    var a := RunEnd(s, p);
    var b := SpaceEnd(s, a);
    var c := SpaceEnd(s, b + |Marker|);
    assert PrimaryShape(s, p, a, b, c, PrimaryAt(s, p).value.0, PrimaryAt(s, p).value.1);
  }

  /** The marker starts with `s`, which is neither a digit, a dot nor a space. */
  lemma MarkerHead(s: string, b: nat)
    requires OccursAt(s, Marker, b)
    ensures b < |s| && !IsRunChar(s[b]) && !IsSpace(s[b])
  {
    assert s[b] == Marker[0] == 's';
  }

  /** `\$?([\d.]+)` can match at `c` only in the one way `GroupTwo` finds, group 2 read to the end of the run. */
  lemma GroupTwoComplete(s: string, c: nat, g: nat, h: nat)
    requires c <= g < h <= |s|
    requires g == c || (g == c + 1 && s[c] == '$')
    requires forall k :: g <= k < h ==> IsRunChar(s[k])
    ensures GroupTwo(s, c) == Some((g, RunEnd(s, g)))
  {
    if g == c {
      RunCharNotSpace(s[c]);
    }
  }

  /**
   * Whenever the pattern can match at `p` at all, the matcher finds the
   * match whose group 2 starts at `g` and runs as far as digits and dots go:
   * every other part of the match is forced.
   */
  lemma PrimaryAtComplete(s: string, p: nat, a: nat, b: nat, c: nat, g: nat, h: nat)
    requires PrimaryShape(s, p, a, b, c, g, h)
    ensures PrimaryAt(s, p) == Some((g, RunEnd(s, g)))
  {
    MarkerHead(s, b);
    assert RunEnd(s, p) == a by {
      if a < b {
        SpaceNotRunChar(s[a]);
      }
      RunEndUnique(s, p, a);
    }
    assert SpaceEnd(s, a) == b by {
      SpaceEndUnique(s, a, b);
    }
    assert SpaceEnd(s, b + |Marker|) == c by {
      if c == g {
        RunCharNotSpace(s[c]);
      }
      SpaceEndUnique(s, b + |Marker|, c);
    }
    GroupTwoComplete(s, c, g, h);
    PrimaryAtSteps(s, p, a, b);
  }

  /** `PrimaryAt` once the end of group 1 and of the spaces after it are known. */
  lemma PrimaryAtSteps(s: string, p: nat, a: nat, b: nat)
    requires p < a <= |s| && RunEnd(s, p) == a
    requires SpaceEnd(s, a) == b && OccursAt(s, Marker, b)
    ensures b + |Marker| <= |s|
    ensures PrimaryAt(s, p) == GroupTwo(s, SpaceEnd(s, b + |Marker|))
  {
  }

  /** Whether the primary pattern matches, position by position. */
  function MatchTable(s: string): (t: seq<bool>)
    ensures |t| == |s| + 1
    ensures forall j :: 0 <= j <= |s| ==> t[j] == PrimaryAt(s, j).Some?
  {
    seq(|s| + 1, j requires 0 <= j <= |s| => PrimaryAt(s, j).Some?)
  }

  /** The first `true` in `t` from `p` on, if there is one. */
  function FirstTrue(t: seq<bool>, p: nat): (q: Option<nat>)
    requires p <= |t|
    ensures q.Some? ==> p <= q.value < |t| && t[q.value]
    ensures q.Some? ==> forall j :: p <= j < q.value ==> !t[j]
    ensures q.None? ==> forall j :: p <= j < |t| ==> !t[j]
    decreases |t| - p
  {
    if p == |t| then None
    else if t[p] then Some(p)
    else FirstTrue(t, p + 1)
  }

  /** `re.search`: the leftmost position where the primary pattern matches. */
  function PrimarySearch(s: string): (q: Option<nat>)
    ensures q.None? ==> forall j :: 0 <= j <= |s| ==> PrimaryAt(s, j).None?
    ensures q.Some? ==> q.value <= |s| && PrimaryAt(s, q.value).Some?
    ensures q.Some? ==> forall j :: 0 <= j < q.value ==> PrimaryAt(s, j).None?
  {
    FirstTrue(MatchTable(s), 0)
  }

  /*
   * The fallback `re.findall(r'\$([\d.]+)', row_text)`.
   */

  /** The amount after the `$` at `i`: the longest run of digits and dots. */
  function AmountAt(s: string, i: nat): (r: string)
    requires DollarAt(s, i)
    ensures |r| > 0 && AllRunChars(r)
  {
    s[i + 1..RunEnd(s, i + 1)]
  }

  /** `findall` from `i`: each match is taken, and the search resumes where it ended. */
  function FindAmounts(s: string, i: nat): (r: seq<string>)
    requires i <= |s|
    ensures forall k :: 0 <= k < |r| ==> |r[k]| > 0 && AllRunChars(r[k])
    decreases |s| - i
  {
    if i == |s| then []
    else if DollarAt(s, i) then [AmountAt(s, i)] + FindAmounts(s, RunEnd(s, i + 1))
    else FindAmounts(s, i + 1)
  }

  /** The amount after every qualifying `$` from `i` on, in order. */
  function AmountsFrom(s: string, i: nat): (r: seq<string>)
    requires i <= |s|
    ensures forall k :: 0 <= k < |r| ==> |r[k]| > 0 && AllRunChars(r[k])
    decreases |s| - i
  {
    if i == |s| then []
    else (if DollarAt(s, i) then [AmountAt(s, i)] else []) + AmountsFrom(s, i + 1)
  }

  /** No `$` inside a run of digits and dots, so the run contributes nothing. */
  lemma {:induction false} AmountsSkipRun(s: string, j: nat, e: nat)
    requires j <= e <= |s|
    requires forall k :: j <= k < e ==> IsRunChar(s[k])
    ensures AmountsFrom(s, j) == AmountsFrom(s, e)
    decreases e - j
  {
    if j < e {
      assert !DollarAt(s, j);
      AmountsSkipRun(s, j + 1, e);
    }
  }

  /** The matches of `findall` do not overlap and miss no `$`: they are the amounts after every qualifying `$`. */
  lemma {:induction false} FindAmountsAll(s: string, i: nat)
    requires i <= |s|
    ensures FindAmounts(s, i) == AmountsFrom(s, i)
    decreases |s| - i
  {
    if i < |s| {
      if DollarAt(s, i) {
        var e := RunEnd(s, i + 1);
        FindAmountsAll(s, e);
        AmountsSkipRun(s, i + 1, e);
      } else {
        FindAmountsAll(s, i + 1);
        assert AmountsFrom(s, i) == [] + AmountsFrom(s, i + 1);
      }
    }
  }

  /*
   * One row.
   */

  /** What one row contributes: nothing, a value, or a number `float()` raises on. */
  datatype RowYield = NoYield | Yield(value: real) | Malformed

  /** `float(run)`, with its `ValueError` as `Malformed`. */
  function ReadFloat(run: string): (y: RowYield)
    requires AllRunChars(run)
    ensures y.Malformed? <==> !WellFormed(run)
    ensures WellFormed(run) ==> y == Yield(DecimalValue(run).value)
  {
    match DecimalValue(run)
    case None => Malformed
    case Some(v) => Yield(v)
  }

  /** The text of group 2 in the match at `q`. */
  function GroupTwoText(row: string, q: nat): (t: string)
    requires q <= |row| && PrimaryAt(row, q).Some?
    ensures AllRunChars(t)
  {
    var (g, h) := PrimaryAt(row, q).value;
    row[g..h]
  }

  /**
   * One iteration of the row loop: only a row that contains the marker is
   * examined; the primary pattern's group 2 wins; otherwise, with at least two
   * `$` amounts, the second to last one.
   */
  function RowLiquidity(row: string): (y: RowYield)
    ensures y != NoYield ==> Contains(row, Marker)
    ensures y.Yield? ==> y.value >= 0.0
  {
    if !Contains(row, Marker) then NoYield
    else
      match PrimarySearch(row)
      case Some(q) => ReadFloat(GroupTwoText(row, q))
      case None =>
        var amounts := FindAmounts(row, 0);
        if |amounts| >= 2 then ReadFloat(amounts[|amounts| - 2]) else NoYield
  }

  /** The search reports the leftmost match of the pattern, with group 2 read to the end of its run. */
  lemma PrimarySearchFinds(row: string, p: nat, a: nat, b: nat, c: nat, g: nat, h: nat)
    requires PrimaryShape(row, p, a, b, c, g, h)
    requires forall j :: 0 <= j < p ==> PrimaryAt(row, j).None?
    ensures Contains(row, Marker)
    ensures PrimarySearch(row) == Some(p)
    ensures PrimaryAt(row, p) == Some((g, RunEnd(row, g)))
  {
    PrimaryAtComplete(row, p, a, b, c, g, h);
    assert OccursAt(row, Marker, b);
    SearchFindsLeftmost(row, p);
  }

  /** A match with none to its left is the one the search reports. */
  lemma SearchFindsLeftmost(row: string, p: nat)
    requires p <= |row| && PrimaryAt(row, p).Some?
    requires forall j :: 0 <= j < p ==> PrimaryAt(row, j).None?
    ensures PrimarySearch(row) == Some(p)
  {
    var t := MatchTable(row);
    assert t[p];
    assert forall j :: 0 <= j < p ==> !t[j];
    FirstTrueLeftmost(t, p);
  }

  /** A `true` with none to its left is the first one. */
  lemma FirstTrueLeftmost(t: seq<bool>, p: nat)
    requires p < |t| && t[p]
    requires forall j :: 0 <= j < p ==> !t[j]
    ensures FirstTrue(t, 0) == Some(p)
  {
  }

  /**
   * Precedence of the primary pattern: when it matches in a row, the row is
   * decided by its leftmost match, read up to the end of the run, and the `$`
   * amounts are not consulted.
   */
  lemma PrimaryDecides(row: string, p: nat, a: nat, b: nat, c: nat, g: nat, h: nat)
    requires PrimaryShape(row, p, a, b, c, g, h)
    requires forall j :: 0 <= j < p ==> PrimaryAt(row, j).None?
    ensures AllRunChars(row[g..RunEnd(row, g)])
    ensures RowLiquidity(row) == ReadFloat(row[g..RunEnd(row, g)])
  {
    PrimarySearchFinds(row, p, a, b, c, g, h);
    assert GroupTwoText(row, p) == row[g..RunEnd(row, g)];
  }

  /** Where the parts of a row built as amount, space, marker, space, `$`, amount and rest lie. */
  lemma MarkerThenDollarLayout(row: string, g1: string, g2: string, rest: string)
    requires row == g1 + " " + Marker + " $" + g2 + rest
    ensures var a, c := |g1|, |g1| + |Marker| + 2;
            && |row| == c + 1 + |g2| + |rest|
            && row[..a] == g1 && row[a] == ' ' && row[a + 1..c - 1] == Marker && row[c - 1] == ' '
            && row[c] == '$' && row[c + 1..c + 1 + |g2|] == g2 && row[c + 1 + |g2|..] == rest
  {
    var a, c := |g1|, |g1| + |Marker| + 2;
    var pre := g1 + " " + Marker + " ";
    assert row == pre + "$" + g2 + rest;
    assert row[..c] == pre;
    assert pre[..a] == g1 && pre[a + 1..c - 1] == Marker;
    assert row[a + 1..c - 1] == pre[a + 1..c - 1];
  }

  /** The same row as one match of the primary pattern from position 0. */
  lemma MarkerThenDollarShape(row: string, g1: string, g2: string, rest: string)
    requires |g1| > 0 && AllRunChars(g1) && |g2| > 0 && AllRunChars(g2)
    requires row == g1 + " " + Marker + " $" + g2 + rest
    ensures var c := |g1| + |Marker| + 2;
            && PrimaryShape(row, 0, |g1|, |g1| + 1, c, c + 1, c + 1 + |g2|)
            && row[c + 1..c + 1 + |g2|] == g2 && row[c + 1 + |g2|..] == rest
  {
    var a, c := |g1|, |g1| + |Marker| + 2;
    var h := c + 1 + |g2|;
    MarkerThenDollarLayout(row, g1, g2, rest);
    assert OccursAt(row, Marker, a + 1) by {
      
    }
    assert forall k :: 0 <= k < a ==> row[k] == row[..a][k];
    assert forall k :: c + 1 <= k < h ==> row[k] == row[c + 1..h][k - c - 1];
  }

  /**
   * A row that starts with an amount, the marker and a `$` amount, separated by
   * single spaces, is read from the `$` amount, whatever follows it.
   */
  lemma MarkerThenDollar(row: string, g1: string, g2: string, rest: string)
    requires |g1| > 0 && AllRunChars(g1) && |g2| > 0 && AllRunChars(g2)
    requires rest == [] || !IsRunChar(rest[0])
    requires row == g1 + " " + Marker + " $" + g2 + rest
    ensures RowLiquidity(row) == ReadFloat(g2)
  {
    var c := |g1| + |Marker| + 2;
    var h := c + 1 + |g2|;
    MarkerThenDollarShape(row, g1, g2, rest);
    PrimaryDecides(row, 0, |g1|, |g1| + 1, c, c + 1, h);
    assert h == |row| || row[h] == rest[0];
    RunEndUnique(row, c + 1, h);
  }

  /** `MarkerThenDollar` for a `$` amount with a dot, read off once its digits are evaluated. */
  lemma MarkerThenPointed(row: string, g1: string, ip: string, fp: string, rest: string, n: nat, expected: real)
    requires |g1| > 0 && AllRunChars(g1)
    requires AllDigits(ip) && AllDigits(fp) && |ip| + |fp| > 0 && AllDigits(ip + fp)
    requires rest == [] || !IsRunChar(rest[0])
    requires row == g1 + " " + Marker + " $" + (ip + "." + fp) + rest
    requires DigitsValue(ip + fp) == n && Ratio(n, Pow10(|fp|)) == expected
    ensures RowLiquidity(row) == Yield(expected)
  {
    PointedValue(ip, fp);
    MarkerThenDollar(row, g1, ip + "." + fp, rest);
  }

  /** A pool row as the page shows it: the amount after the marker is read, whatever `$` amounts follow. */
  lemma ExampleRow()
    ensures RowLiquidity("20.40 satUSD-v1 $20.39 $0.5 $1") == Yield(20.39)
  {
    assert DigitsValue("20" + "39") == 2039 by {
      assert "20" + "39" == "2039";
      Digits2039();
    }
    assert Ratio(2039, Pow10(2)) == 20.39 by {
      assert Pow10(2) == 100;
    }
    assert AllRunChars("20.40") && AllDigits("20") && AllDigits("39");
    assert "20.40 satUSD-v1 $20.39 $0.5 $1" == "20.40" + " " + Marker + " $" + ("20" + "." + "39") + " $0.5 $1" by {
      assert "20.40" + " " + Marker + " $" == "20.40 satUSD-v1 $";
      assert "20" + "." + "39" + " $0.5 $1" == "20.39 $0.5 $1";
    }
    MarkerThenPointed("20.40 satUSD-v1 $20.39 $0.5 $1", "20.40", "20", "39", " $0.5 $1", 2039, 20.39);
  }

  /** `MarkerThenDollar` for a `$` amount of digits only, read off once its digits are evaluated. */
  lemma MarkerThenWhole(row: string, g1: string, ds: string, rest: string, n: nat)
    requires |g1| > 0 && AllRunChars(g1) && |ds| > 0 && AllDigits(ds)
    requires rest == [] || !IsRunChar(rest[0])
    requires row == g1 + " " + Marker + " $" + ds + rest
    requires DigitsValue(ds) == n
    ensures RowLiquidity(row) == Yield(n as real)
  {
    WholeValue(ds);
    MarkerThenDollar(row, g1, ds, rest);
  }

  /**
   * The row scan reads amounts with `[\d.]+` and never removes thousands
   * separators: a `$` amount written with a comma is cut at the comma.
   */
  lemma ThousandsSeparatorCutsAmount()
    ensures RowLiquidity("1234.56 satUSD-v1 $1,234.56") == Yield(1.0)
  {
    assert DigitsValue("1") == 1 by {
      assert "1"[..0] == "";
    }
    assert AllRunChars("1234.56") && AllDigits("1");
    assert "1234.56 satUSD-v1 $1,234.56" == "1234.56" + " " + Marker + " $" + "1" + ",234.56";
    MarkerThenWhole("1234.56 satUSD-v1 $1,234.56", "1234.56", "1", ",234.56", 1);
  }

  /**
   * The fallback: in a row with the marker where the primary pattern matches
   * nowhere, two or more `$` amounts give the second to last, fewer give nothing.
   */
  lemma FallbackSecondToLast(row: string)
    requires Contains(row, Marker)
    requires forall j :: 0 <= j <= |row| ==> PrimaryAt(row, j).None?
    ensures var amounts := AmountsFrom(row, 0);
            RowLiquidity(row) == if |amounts| >= 2 then ReadFloat(amounts[|amounts| - 2]) else NoYield
  {
    assert PrimarySearch(row).None?;
    FallbackBranch(row);
    FindAmountsAll(row, 0);
  }

  /** `RowLiquidity` on a marker row where the search finds no match. */
  lemma FallbackBranch(row: string)
    requires Contains(row, Marker) && PrimarySearch(row).None?
    ensures var amounts := FindAmounts(row, 0);
            RowLiquidity(row) == if |amounts| >= 2 then ReadFloat(amounts[|amounts| - 2]) else NoYield
  {
  }

  /*
   * The rows of the page.
   */

  /** The loop over the rows: the first row that yields a value or raises decides. */
  function ScanRows(rows: seq<string>): (r: Option<real>)
    ensures r.Some? ==> r.value >= 0.0
  {
    if rows == [] then None
    else
      match RowLiquidity(rows[0])
      case Yield(v) => Some(v)
      case Malformed => None
      case NoYield => ScanRows(rows[1..])
  }

  /** Rows before the first deciding row are passed over, whatever follows it is not looked at. */
  lemma {:induction false} ScanFirstDeciding(rows: seq<string>, i: nat)
    requires i < |rows|
    requires forall j :: 0 <= j < i ==> RowLiquidity(rows[j]) == NoYield
    requires RowLiquidity(rows[i]) != NoYield
    ensures ScanRows(rows) == if RowLiquidity(rows[i]).Yield? then Some(RowLiquidity(rows[i]).value) else None
  {
    if i > 0 {
      assert RowLiquidity(rows[0]) == NoYield;
      ScanFirstDeciding(rows[1..], i - 1);
    }
  }

  /** When no row decides, the scan finds nothing. */
  lemma {:induction false} ScanNoneDeciding(rows: seq<string>)
    requires forall j :: 0 <= j < |rows| ==> RowLiquidity(rows[j]) == NoYield
    ensures ScanRows(rows) == None
  {
    if rows != [] {
      assert RowLiquidity(rows[0]) == NoYield;
      ScanNoneDeciding(rows[1..]);
    }
  }

  /**
   * What `get_liquidity_from_page` returns: `page` is `None` when the browser
   * could not load the page or the marker did not appear in time, which the
   * code catches and reports as `None`.
   */
  function PageLiquidity(page: Option<seq<string>>): (r: Option<real>)
    ensures r.Some? ==> page.Some? && r.value >= 0.0
  {
    if page.None? then None else ScanRows(page.value)
  }

  /** The row loop of `get_liquidity_from_page`, returning as soon as a row decides. */
  method GetLiquidityFromPage(page: Option<seq<string>>) returns (r: Option<real>)
    ensures r == PageLiquidity(page)
  {
    if page.None? {
      return None;
    }
    var rows := page.value;
    var i := 0;
    while i < |rows|
      invariant 0 <= i <= |rows|
      invariant ScanRows(rows) == ScanRows(rows[i..])
    {
      assert rows[i..][0] == rows[i] && rows[i..][1..] == rows[i + 1..];
      var y := RowLiquidity(rows[i]);
      match y {
        case Yield(v) =>
          return Some(v);
        case Malformed =>
          return None;
        case NoYield =>
      }
      i := i + 1;
    }
    return None;
  }
}
