/** The AdaptiveSwitch of src/adaptive_switch.ts. */
module TsSwitch {
  import opened Wrappers
  import opened SlidingWindow

  /** The mode of a fresh switch after the first n blocks, whose order and time were judged ok or not. The window is
      their last 20; nothing in the code raises the cooldown, so it stays at 0. */
  function ModeAfter(results: seq<bool>, n: nat): Mode
    requires n <= |results|
  {
    if n == 0 then Full
    else if n >= WINDOW && WindowOk(results, n, ModeAfter(results, n - 1)) then Turbo
    else Full
  }

  lemma {:induction false} ModePrefix(results: seq<bool>, more: seq<bool>, n: nat)
    requires n <= |results|
    ensures ModeAfter(results + more, n) == ModeAfter(results, n)
  {
    if n > 0 {
      ModePrefix(results, more, n - 1);
      MatchesPrefix(results, more, Oldest(n), n);
    }
  }

  lemma NextMode(results: seq<bool>, n: nat)
    requires n < |results|
    ensures ModeAfter(results, n + 1) == Turbo <==>
              n + 1 >= WINDOW && InWindow(results, n + 1) >= Threshold(ModeAfter(results, n))
  {
  }

  // ---- The closed form of the hysteresis ----

  /** At block i at least 95 % of the last 20 results matched, and at every block from there on at least 85 %. */
  ghost predicate HeldSince(results: seq<bool>, i: nat, n: nat)
    requires n <= |results|
  {
    && 20 <= i <= n && 100 * |Matching(results, i)| >= 95 * 20
    && forall j :: i <= j <= n ==> 100 * |Matching(results, j)| >= 85 * 20
  }

  lemma Percentages(results: seq<bool>, n: nat)
    requires 20 <= n <= |results|
    ensures 100 * |Matching(results, n)| >= 95 * 20 <==> InWindow(results, n) >= ENTRY
    ensures 100 * |Matching(results, n)| >= 85 * 20 <==> InWindow(results, n) >= MAINTAIN
  {
    WindowIsCounted(results, n);
  }

  ghost predicate Promoted(results: seq<bool>, n: nat)
    requires n <= |results|
  {
    exists i: nat :: HeldSince(results, i, n)
  }

  lemma HeldLonger(results: seq<bool>, i: nat, n: nat)
    requires n < |results| && HeldSince(results, i, n) && InWindow(results, n + 1) >= MAINTAIN
    ensures HeldSince(results, i, n + 1)
  {
    Percentages(results, n + 1);
  }

  lemma HeldBefore(results: seq<bool>, i: nat, n: nat)
    requires n < |results| && HeldSince(results, i, n + 1) && i <= n
    ensures HeldSince(results, i, n)
  {
  }

  lemma PromotedStep(results: seq<bool>, n: nat)
    requires n < |results|
    ensures Promoted(results, n + 1) <==>
              && n + 1 >= WINDOW
              && (InWindow(results, n + 1) >= ENTRY || (Promoted(results, n) && InWindow(results, n + 1) >= MAINTAIN))
  {
    if n + 1 >= WINDOW {
      Percentages(results, n + 1);
    }
    if Promoted(results, n + 1) {
      var i: nat :| HeldSince(results, i, n + 1);
      if i <= n {
        HeldBefore(results, i, n);
      }
    }
    if n + 1 >= WINDOW && InWindow(results, n + 1) >= ENTRY {
      assert HeldSince(results, n + 1, n + 1);
    } else if n + 1 >= WINDOW && Promoted(results, n) && InWindow(results, n + 1) >= MAINTAIN {
      var i: nat :| HeldSince(results, i, n);
      HeldLonger(results, i, n);
    }
  }

  /** After n blocks the switch is in TURBO exactly when at some block i at least 95 % of the last 20 results matched
      and at no block since fewer than 85 % did. */
  lemma {:induction false} ClosedForm(results: seq<bool>, n: nat)
    requires n <= |results|
    ensures ModeAfter(results, n) == Turbo <==> exists i: nat :: HeldSince(results, i, n)
  {
    if n > 0 {
      ClosedForm(results, n - 1);
      NextMode(results, n - 1);
      PromotedStep(results, n - 1);
    }
  }

  /** The mode after n blocks is not the one before block n. */
  predicate Switches(results: seq<bool>, n: nat)
    requires 0 < n <= |results|
  {
    ModeAfter(results, n) != ModeAfter(results, n - 1)
  }

  /** A switch of mode at block n, and the window count that caused it. */
  lemma SwitchCause(results: seq<bool>, n: nat)
    requires 0 < n <= |results| && Switches(results, n)
    ensures n >= 20
    ensures 100 * |Matching(results, n)| >= 95 * 20 <==> ModeAfter(results, n) == Turbo
    ensures 100 * |Matching(results, n)| < 85 * 20 <==> ModeAfter(results, n) == Full
    ensures InWindow(results, n) == |Matching(results, n)|
  {
    if n >= 20 {
      WindowIsCounted(results, n);
    }
    NextMode(results, n - 1);
    if n > 1 {
      NextMode(results, n - 2);
    }
  }

  lemma {:induction false} WindowLipschitz(results: seq<bool>, m: nat, n: nat)
    requires WINDOW <= m <= n <= |results|
    ensures -(n - m) <= InWindow(results, n) - InWindow(results, m) <= n - m
    decreases n - m
  {
    if m < n {
      WindowLipschitz(results, m, n - 1);
      WindowMovesSlowly(results, n - 1);
    }
  }

  lemma OppositeSwitchesApart(results: seq<bool>, m: nat, n: nat)
    requires 0 < m < n <= |results| && Switches(results, m) && Switches(results, n)
    requires ModeAfter(results, m) != ModeAfter(results, n)
    ensures n - m >= 3
  {
    SwitchCause(results, m);
    SwitchCause(results, n);
    WindowLipschitz(results, m, n);
  }

  /** The gap between the thresholds keeps any two mode switches at least three blocks apart. */
  lemma SwitchesApart(results: seq<bool>, m: nat, n: nat)
    requires 0 < m < n <= |results| && Switches(results, m) && Switches(results, n)
    ensures n - m >= 3
  {
    if ModeAfter(results, m) != ModeAfter(results, n) {
      OppositeSwitchesApart(results, m, n);
    } else if n - m < 3 {
      assert n - 1 == m + 1;
      OppositeSwitchesApart(results, m, n - 1);
    }
  }

  lemma NextWindow(results: seq<bool>, ok: bool)
    ensures var all := results + [ok];
            && Slide(Recent(results, |results|), ok) == Recent(all, |all|)
            && ModeAfter(all, |results|) == ModeAfter(results, |results|)
  {
    var all := results + [ok];
    assert Recent(all, |results|) == Recent(results, |results|);
    SlideIsRecent(all, |results|);
    ModePrefix(results, [ok], |results|);
  }

  // ---- The class ----

  datatype Block = Block(timestamp: real, txs: seq<string>)

  datatype TttRecord = TttRecord(time: real, txOrder: seq<string>)

  /** TIER_TOLERANCE_MS; None where the table has no entry. */
  function TierTolerance(tier: string): Option<real> {
    match tier
    case "T0_epoch" => Some(2000.0)
    case "T1_block" => Some(200.0)
    case "T2_slot" => Some(500.0)
    case "T3_micro" => Some(10.0)
    case _ => None
  }

  predicate Close(a: real, b: real, tolerance: real) {
    -tolerance < a - b < tolerance
  }

  class AdaptiveSwitch {
    var history: seq<bool>
    var currentMode: Mode
    var penaltyCooldown: nat
    var consecutiveFailures: nat
    const tolerance: real

    /** The results judged since construction or the last reset. */
    ghost var seen: seq<bool>

    /** The switch is where a fresh one would be after everything seen. */
    ghost predicate Valid()
      reads this
    {
      && history == Recent(seen, |seen|) && currentMode == ModeAfter(seen, |seen|)
      && penaltyCooldown == 0 && consecutiveFailures == 0
    }

    constructor (tolerance: real := 100.0)
      ensures Valid() && seen == [] && this.tolerance == tolerance
    {
      history, currentMode, penaltyCooldown, consecutiveFailures := [], Full, 0, 0;
      this.tolerance := tolerance;
      seen := [];
    }

    /** A tier that is given, non-empty and listed overrides the switch's own tolerance. */
    function Tolerance(tier: Option<string>): real {
      if tier.Some? && tier.value != "" && TierTolerance(tier.value).Some? then TierTolerance(tier.value).value
          else tolerance
    }

    /** The block keeps the recorded order and lies within the tolerance of the recorded time. */
    predicate SequenceOk(block: Block, record: TttRecord, tier: Option<string>) {
      block.txs == record.txOrder && Close(block.timestamp, record.time, Tolerance(tier))
    }

    /** Less than the tier's 2000, 200, 500 or 10 ms either way; without a listed tier, less than the switch's own
        tolerance. */
    predicate InTime(lateBy: real, tier: Option<string>) {
      && (tier == Some("T0_epoch") ==> -2000.0 < lateBy < 2000.0)
      && (tier == Some("T1_block") ==> -200.0 < lateBy < 200.0)
      && (tier == Some("T2_slot") ==> -500.0 < lateBy < 500.0)
      && (tier == Some("T3_micro") ==> -10.0 < lateBy < 10.0)
      && (tier !in [Some("T0_epoch"), Some("T1_block"), Some("T2_slot"), Some("T3_micro")] ==>
            -tolerance < lateBy < tolerance)
    }

    lemma ToleranceMeans(lateBy: real, tier: Option<string>)
      ensures -Tolerance(tier) < lateBy < Tolerance(tier) <==> InTime(lateBy, tier)
    {
    }

    /** The new result is whether the order is the recorded one and the time close enough, and TURBO is returned exactly
        when the results so far earn it. */
    method VerifyBlock(block: Block, record: TttRecord, tier: Option<string>) returns (mode: Mode)
      requires Valid()
      modifies this
      ensures Valid() && seen == old(seen) + [SequenceOk(block, record, tier)]
      ensures mode == currentMode
      ensures seen == old(seen) + [block.txs == record.txOrder && InTime(block.timestamp - record.time, tier)]
      ensures mode == Turbo <==> exists i: nat :: HeldSince(seen, i, |seen|)
    {
      ToleranceMeans(block.timestamp - record.time, tier);
      var orderMatch := CompareTransactionOrder(block.txs, record.txOrder);
      var delta := if block.timestamp >= record.time then block.timestamp - record.time
          else record.time - block.timestamp;
      var timeMatch := delta < Tolerance(tier);
      assert timeMatch == Close(block.timestamp, record.time, Tolerance(tier));
      mode := RecordResult(orderMatch && timeMatch);
      ClosedForm(seen, |seen|);
    }

    /** The part of verifyBlock after the verdict: window, cooldown, mode. */
    method RecordResult(sequenceOk: bool) returns (mode: Mode)
      requires Valid()
      modifies this
      ensures Valid() && seen == old(seen) + [sequenceOk]
      ensures mode == currentMode
    {
      ghost var all := seen + [sequenceOk];
      NextWindow(seen, sequenceOk);
      history := history + [sequenceOk];
      if |history| > WINDOW {
        history := history[1..];
      }
      assert history == Recent(all, |all|);
      RecentRate(all, |all|, currentMode);
      CoolDown();
      if |history| >= WINDOW && RateAtLeast(history, currentMode) && penaltyCooldown == 0 {
        currentMode := Turbo;
        consecutiveFailures := 0;
      } else {
        currentMode := Full;
      }
      seen := all;
      return currentMode;
    }

    method CoolDown()
      modifies this`penaltyCooldown
      ensures penaltyCooldown == if old(penaltyCooldown) > 0 then old(penaltyCooldown) - 1 else 0
    {
      if penaltyCooldown > 0 {
        penaltyCooldown := penaltyCooldown - 1;
      }
    }

    method Reset()
      modifies this
      ensures Valid() && seen == []
    {
      history, currentMode, penaltyCooldown, consecutiveFailures := [], Full, 0, 0;
      seen := [];
    }

    method CompareTransactionOrder(blockTxs: seq<string>, expectedOrder: seq<string>) returns (same: bool)
      ensures same <==> blockTxs == expectedOrder
    {
      if |blockTxs| != |expectedOrder| {
        return false;
      }
      for i := 0 to |blockTxs|
        invariant blockTxs[..i] == expectedOrder[..i]
      {
        if blockTxs[i] != expectedOrder[i] {
          return false;
        }
      }
      return true;
    }
  }
}
