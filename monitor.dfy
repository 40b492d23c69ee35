/**
 * `SatUSDMonitor.check_and_notify`: one check of the pool's liquidity against
 * the configured threshold, and the alert it may send. The last state is
 * unknown before the first successful check, then whether the last value read
 * was above the threshold.
 */
module Monitor {
  import opened Wrappers
  import opened RowScan

  /** `last_state_above_threshold`: `None` (no successful check yet), `False` or `True`. */
  datatype TriState = Unknown | Below | Above

  /** The state a value leaves: strictly above the threshold or not. */
  function StateOf(liquidity: real, threshold: real): (st: TriState)
    ensures st == Above <==> liquidity > threshold
    ensures st != Unknown
  {
    if liquidity > threshold then Above else Below
  }

  /** The effect of one check: the state it leaves and the alerts it sends (at most one). */
  datatype Outcome = Outcome(state: TriState, alerts: seq<real>)

  /**
   * The alert decision: only a value strictly above the threshold alerts; in
   * change-only mode, only when the last state is not "above".
   */
  function ShouldNotify(last: TriState, liquidity: real, threshold: real, changeOnly: bool): (n: bool)
    ensures n ==> liquidity > threshold
    ensures !changeOnly ==> (n <==> liquidity > threshold)
    ensures changeOnly ==> (n <==> liquidity > threshold && last != Above)
  {
    liquidity > threshold && (!changeOnly || last == Below || last == Unknown)
  }

  /** One check, given what the page yielded: a failed reading changes nothing and sends nothing. */
  function Step(last: TriState, reading: Option<real>, threshold: real, changeOnly: bool): (o: Outcome)
    ensures reading.None? ==> o == Outcome(last, [])
    ensures reading.Some? ==> o.state == StateOf(reading.value, threshold)
    ensures |o.alerts| <= 1
    ensures forall k :: 0 <= k < |o.alerts| ==> reading.Some? && o.alerts[k] == reading.value && reading.value > threshold
  {
    match reading
    case None => Outcome(last, [])
    case Some(v) =>
      Outcome(StateOf(v, threshold), if ShouldNotify(last, v, threshold, changeOnly) then [v] else [])
  }

  /** A series of checks from state `last`: the final state and every alert sent, in order. */
  function Run(last: TriState, readings: seq<Option<real>>, threshold: real, changeOnly: bool): (o: Outcome)
    ensures |o.alerts| <= |readings|
    ensures forall k :: 0 <= k < |o.alerts| ==> o.alerts[k] > threshold
  {
    if readings == [] then Outcome(last, [])
    else
      var before := Run(last, readings[..|readings| - 1], threshold, changeOnly);
      var step := Step(before.state, readings[|readings| - 1], threshold, changeOnly);
      Outcome(step.state, before.alerts + step.alerts)
  }

  /** The values read above the threshold, in order, failed readings skipped. */
  function AboveValues(readings: seq<Option<real>>, threshold: real): seq<real> {
    if readings == [] then []
    else
      var r := readings[|readings| - 1];
      AboveValues(readings[..|readings| - 1], threshold) + (if r.Some? && r.value > threshold then [r.value] else [])
  }

  /** The state before reading `i`: whether the most recent successful reading was above the threshold, `last` if none was. */
  function StateBefore(last: TriState, readings: seq<Option<real>>, threshold: real, i: nat): TriState
    requires i <= |readings|
  {
    if i == 0 then last
    else if readings[i - 1].Some? then StateOf(readings[i - 1].value, threshold)
    else StateBefore(last, readings, threshold, i - 1)
  }

  /** Reading `i` is a rising edge: above the threshold while the state before it is not "above". */
  predicate RisingEdge(last: TriState, readings: seq<Option<real>>, threshold: real, i: nat)
    requires i < |readings|
  {
    readings[i].Some? && readings[i].value > threshold && StateBefore(last, readings, threshold, i) != Above
  }

  /** The values at the rising edges among the first `n` readings, in order. */
  function RisingValues(last: TriState, readings: seq<Option<real>>, threshold: real, n: nat): seq<real>
    requires n <= |readings|
  {
    if n == 0 then []
    else
      RisingValues(last, readings, threshold, n - 1)
        + (if RisingEdge(last, readings, threshold, n - 1) then [readings[n - 1].value] else [])
  }

  /** After a series of checks the state is that of the last successful reading. */
  lemma {:induction false} RunState(last: TriState, readings: seq<Option<real>>, threshold: real, changeOnly: bool)
    ensures Run(last, readings, threshold, changeOnly).state == StateBefore(last, readings, threshold, |readings|)
  {
    if readings != [] {
      var init := readings[..|readings| - 1];
      RunState(last, init, threshold, changeOnly);
      StateBeforeSame(last, init, readings, threshold, |readings| - 1);
    }
  }

  /** `StateBefore` only looks at the readings before `i`. */
  lemma {:induction false} StateBeforeSame(last: TriState, a: seq<Option<real>>, b: seq<Option<real>>, threshold: real, i: nat)
    requires i <= |a| && i <= |b| && a[..i] == b[..i]
    ensures StateBefore(last, a, threshold, i) == StateBefore(last, b, threshold, i)
  {
    if i > 0 {
      assert a[i - 1] == a[..i][i - 1] == b[..i][i - 1] == b[i - 1];
      assert a[..i - 1] == a[..i][..i - 1] == b[..i][..i - 1] == b[..i - 1];
      StateBeforeSame(last, a, b, threshold, i - 1);
    }
  }

  /** Notifying on every check: exactly the values above the threshold are alerted, whatever the state. */
  lemma {:induction false} AlwaysModeAlerts(last: TriState, readings: seq<Option<real>>, threshold: real)
    ensures Run(last, readings, threshold, false).alerts == AboveValues(readings, threshold)
  {
    if readings != [] {
      AlwaysModeAlerts(last, readings[..|readings| - 1], threshold);
    }
  }

  /** Notifying on change only: exactly the rising edges are alerted. */
  lemma {:induction false} ChangeOnlyAlerts(last: TriState, readings: seq<Option<real>>, threshold: real, n: nat)
    requires n <= |readings|
    ensures Run(last, readings[..n], threshold, true).alerts == RisingValues(last, readings, threshold, n)
  {
    if n > 0 {
      var prefix := readings[..n];
      var init := readings[..n - 1];
      assert prefix[..n - 1] == init && prefix[n - 1] == readings[n - 1];
      ChangeOnlyAlerts(last, readings, threshold, n - 1);
      var before := Run(last, init, threshold, true);
      assert before.state == StateBefore(last, readings, threshold, n - 1) by {
        RunState(last, init, threshold, true);
        StateBeforeSame(last, init, readings, threshold, n - 1);
      }
      RunLast(last, prefix, threshold, true);
      ChangeOnlyStep(before.state, readings[n - 1], threshold);
    }
  }

  /** A series of checks is the series without its last reading, then one more check. */
  lemma RunLast(last: TriState, readings: seq<Option<real>>, threshold: real, changeOnly: bool)
    requires readings != []
    ensures var before := Run(last, readings[..|readings| - 1], threshold, changeOnly);
            Run(last, readings, threshold, changeOnly).alerts
              == before.alerts + Step(before.state, readings[|readings| - 1], threshold, changeOnly).alerts
  {
  }

  /** One check notifying on change only alerts exactly a reading above the threshold that follows a state not above. */
  lemma ChangeOnlyStep(st: TriState, reading: Option<real>, threshold: real)
    ensures Step(st, reading, threshold, true).alerts
              == if reading.Some? && reading.value > threshold && st != Above then [reading.value] else []
  {
  }

  /** Once a reading is above the threshold, the state stays "above" until a reading at or below it. */
  lemma {:induction false} AboveUntilBelow(last: TriState, readings: seq<Option<real>>, threshold: real, i: nat, j: nat)
    requires i < j <= |readings|
    requires readings[i].Some? && readings[i].value > threshold
    requires forall k :: i < k < j && readings[k].Some? ==> readings[k].value > threshold
    ensures StateBefore(last, readings, threshold, j) == Above
  {
    if j - 1 > i && readings[j - 1].None? {
      AboveUntilBelow(last, readings, threshold, i, j - 1);
    }
  }

  /** In change-only mode, between two alerts there is a successful reading at or below the threshold. */
  lemma ChangeOnlyNeedsDip(last: TriState, readings: seq<Option<real>>, threshold: real, i: nat, j: nat)
    requires i < j < |readings|
    requires RisingEdge(last, readings, threshold, i) && RisingEdge(last, readings, threshold, j)
    ensures exists k :: i < k < j && readings[k].Some? && readings[k].value <= threshold
  {
    if forall k :: i < k < j && readings[k].Some? ==> readings[k].value > threshold {
      AboveUntilBelow(last, readings, threshold, i, j);
    }
  }

  /** Change-only mode never sends more alerts than notifying on every check. */
  lemma {:induction false} ChangeOnlyAlertsFewer(last: TriState, readings: seq<Option<real>>, threshold: real)
    ensures |Run(last, readings, threshold, true).alerts| <= |Run(last, readings, threshold, false).alerts|
  {
    if readings != [] {
      var init := readings[..|readings| - 1];
      ChangeOnlyAlertsFewer(last, init, threshold);
    }
  }

  /** Below, above, above from a fresh start: one alert when notifying on change only, two otherwise. */
  lemma BelowAboveAbove(below: real, above1: real, above2: real, threshold: real)
    requires below <= threshold < above1 && threshold < above2
    ensures var readings := [Some(below), Some(above1), Some(above2)];
            && Run(Unknown, readings, threshold, true).alerts == [above1]
            && Run(Unknown, readings, threshold, false).alerts == [above1, above2]
  {
    var r1 := [Some(below)];
    var r2 := r1 + [Some(above1)];
    var readings := r2 + [Some(above2)];
    assert r1[..0] == [] && r2[..1] == r1 && readings[..2] == r2;
    assert r1[0] == Some(below) && r2[1] == Some(above1) && readings[2] == Some(above2);
    assert Run(Unknown, r1, threshold, true) == Outcome(Below, []);
    assert Run(Unknown, r1, threshold, false) == Outcome(Below, []);
    assert Run(Unknown, r2, threshold, true) == Outcome(Above, [above1]);
    assert Run(Unknown, r2, threshold, false) == Outcome(Above, [above1]);
    assert Run(Unknown, readings, threshold, true).alerts == [above1] + [];
    assert Run(Unknown, readings, threshold, false).alerts == [above1] + [above2];
    assert [above1] + [] == [above1] && [above1] + [above2] == [above1, above2];
    assert readings == [Some(below), Some(above1), Some(above2)];
  }

  /** The threshold is strict: a value equal to it leaves the state "not above" and alerts nothing. */
  lemma AtThresholdNoAlert(last: TriState, threshold: real, changeOnly: bool)
    ensures Step(last, Some(threshold), threshold, changeOnly) == Outcome(Below, [])
  {
  }

  /**
   * The monitor object: the configured threshold and mode, the state kept
   * between checks, and (as a log) the alert values sent to Telegram.
   */
  class SatUsdMonitor {
    const threshold: real
    const changeOnly: bool
    var lastState: TriState
    ghost var sent: seq<real>

    constructor(threshold: real, changeOnly: bool)
      ensures this.threshold == threshold && this.changeOnly == changeOnly
      ensures lastState == Unknown && sent == []
    {
      this.threshold := threshold;
      this.changeOnly := changeOnly;
      lastState := Unknown;
      sent := [];
    }

    /**
     * `check_and_notify`: reads the page, returns whether a value was read,
     * moves the state and sends an alert when `ShouldNotify` says so.
     */
    method CheckAndNotify(page: Option<seq<string>>) returns (ok: bool)
      modifies this
      ensures ok <==> PageLiquidity(page).Some?
      ensures var o := Step(old(lastState), PageLiquidity(page), threshold, changeOnly);
              lastState == o.state && sent == old(sent) + o.alerts
    {
      var liquidity := GetLiquidityFromPage(page);
      if liquidity.None? {
        return false;
      }
      var v := liquidity.value;
      var isAbove := v > threshold;
      var shouldNotify := false;
      if isAbove {
        if changeOnly {
          if lastState == Below || lastState == Unknown {
            shouldNotify := true;
          }
        } else {
          shouldNotify := true;
        }
      }
      lastState := if isAbove then Above else Below;
      if shouldNotify {
        sent := sent + [v];
      }
      return true;
    }
  }
}
