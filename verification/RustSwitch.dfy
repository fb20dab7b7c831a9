/** The AdaptiveSwitch of src/roughtime/adaptive_switch.rs. */
module RustSwitch {
  import opened ByteOrder
  import opened SlidingWindow

  /** What the gates upstream said of one block. */
  datatype Verdict = Verdict(orderOk: bool, timeOk: bool, integrityOk: bool) {
    predicate Failing() {
      !integrityOk || !timeOk
    }
  }

  const GOOD := Verdict(true, true, true)

  datatype State = State(history: seq<bool>, mode: Mode, cooldown: nat, failCount: u32)

  /** backoff_base.pow(fail_count.min(8)) */
  function Backoff(failCount: nat): nat {
    Pow2(if failCount < 8 then failCount else 8)
  }

  /** `+= 1` on a u32, which wraps in release builds. */
  function Increment(count: u32): u32 {
    if count + 1 < TWO_32 then count + 1 else 0
  }

  function Max0(x: int): nat {
    if x > 0 then x else 0
  }

  // ---- A fresh switch after the first n blocks ----

  function FailCountAfter(blocks: seq<Verdict>, n: nat): u32
    requires n <= |blocks|
  {
    if n == 0 then 0
    else if blocks[n - 1].Failing() then Increment(FailCountAfter(blocks, n - 1))
    else FailCountAfter(blocks, n - 1)
  }

  function CooldownAfter(blocks: seq<Verdict>, n: nat): nat
    requires n <= |blocks|
  {
    if n == 0 then 0
    else if blocks[n - 1].Failing() then Backoff(FailCountAfter(blocks, n))
    else Max0(CooldownAfter(blocks, n - 1) - 1)
  }

  /** The results that reach the window: failing blocks do not. */
  function Judged(blocks: seq<Verdict>, n: nat): (results: seq<bool>)
    requires n <= |blocks|
    ensures |results| <= n
  {
    if n == 0 then []
    else if blocks[n - 1].Failing() then Judged(blocks, n - 1)
    else Judged(blocks, n - 1) + [blocks[n - 1].orderOk]
  }

  /** The window over the results judged among the first n blocks meets the mode's threshold. */
  predicate JudgedOk(blocks: seq<Verdict>, n: nat, mode: Mode)
    requires n <= |blocks|
  {
    WindowOk(Judged(blocks, n), |Judged(blocks, n)|, mode)
  }

  /** verify_block forces FULL on a failing block; otherwise window, cooldown and failure count decide. */
  function ModeAfter(blocks: seq<Verdict>, n: nat): Mode
    requires n <= |blocks|
  {
    if n == 0 || blocks[n - 1].Failing() then Full
    else
      var before, cooldown := ModeAfter(blocks, n - 1), CooldownAfter(blocks, n);
      var rateOk := JudgedOk(blocks, n, before);
      if |Judged(blocks, n)| >= WINDOW && rateOk && cooldown == 0 && FailCountAfter(blocks, n) == 0 then Turbo
      else if !rateOk || cooldown > 0 then Full
      else before
  }

  function After(blocks: seq<Verdict>, n: nat): State
    requires n <= |blocks|
  {
    var results := Judged(blocks, n);
    State(Recent(results, |results|), ModeAfter(blocks, n), CooldownAfter(blocks, n), FailCountAfter(blocks, n))
  }

  lemma {:induction false} CountersPrefix(blocks: seq<Verdict>, more: seq<Verdict>, n: nat)
    requires n <= |blocks|
    ensures FailCountAfter(blocks + more, n) == FailCountAfter(blocks, n)
    ensures CooldownAfter(blocks + more, n) == CooldownAfter(blocks, n)
  {
    if n > 0 {
      CountersPrefix(blocks, more, n - 1);
    }
  }

  lemma {:induction false} JudgedPrefix(blocks: seq<Verdict>, more: seq<Verdict>, n: nat)
    requires n <= |blocks|
    ensures Judged(blocks + more, n) == Judged(blocks, n)
  {
    if n > 0 {
      JudgedPrefix(blocks, more, n - 1);
    }
  }

  lemma {:induction false} ModePrefix(blocks: seq<Verdict>, more: seq<Verdict>, n: nat)
    requires n <= |blocks|
    ensures ModeAfter(blocks + more, n) == ModeAfter(blocks, n)
  {
    if n > 0 {
      ModePrefix(blocks, more, n - 1);
      CountersPrefix(blocks, more, n);
      JudgedPrefix(blocks, more, n);
    }
  }

  // ---- What a run of blocks leaves behind ----

  function Failures(blocks: seq<Verdict>, n: nat): (f: nat)
    requires n <= |blocks|
    ensures f <= n
  {
    if n == 0 then 0 else Failures(blocks, n - 1) + (if blocks[n - 1].Failing() then 1 else 0)
  }

  /** Blocks since the last failing one. */
  function SinceFailure(blocks: seq<Verdict>, n: nat): nat
    requires n <= |blocks|
  {
    if n == 0 || blocks[n - 1].Failing() then 0 else SinceFailure(blocks, n - 1) + 1
  }

  lemma WrappedIncrement(f: nat)
    ensures Increment(f % 0x1_0000_0000) == (f + 1) % 0x1_0000_0000
  {
  }

  /** The failures among the first n blocks: not intact or not in time. */
  function Failed(blocks: seq<Verdict>, n: nat): set<nat>
    requires n <= |blocks|
  {
    set p: nat | p < n && !(blocks[p].integrityOk && blocks[p].timeOk)
  }

  lemma {:induction false} FailuresAreCounted(blocks: seq<Verdict>, n: nat)
    requires n <= |blocks|
    ensures Failures(blocks, n) == |Failed(blocks, n)|
  {
    if n == 0 {
      assert Failed(blocks, 0) == {};
    } else {
      FailuresAreCounted(blocks, n - 1);
      var before := Failed(blocks, n - 1);
      assert n - 1 !in before;
      assert Failed(blocks, n) == before + (if blocks[n - 1].Failing() then {n - 1} else {});
    }
  }

  /** The blocks since the last failure are good ones, and the one before them failed. */
  lemma {:induction false} SinceFailureMeans(blocks: seq<Verdict>, n: nat)
    requires n <= |blocks|
    ensures var k := SinceFailure(blocks, n);
            && k <= n && (forall p :: n - k <= p < n ==> blocks[p].integrityOk && blocks[p].timeOk)
            && (k < n ==> !(blocks[n - k - 1].integrityOk && blocks[n - k - 1].timeOk))
  {
    if n > 0 {
      SinceFailureMeans(blocks, n - 1);
    }
  }

  /** The failure counter counts every failure since the last reset, modulo 2^32; the code calls them consecutive, but
      no good block clears it. */
  lemma {:induction false} FailCountExact(blocks: seq<Verdict>, n: nat)
    requires n <= |blocks|
    ensures FailCountAfter(blocks, n) == Failures(blocks, n) % 0x1_0000_0000
    ensures Failures(blocks, n) == |Failed(blocks, n)|
  {
    FailuresAreCounted(blocks, n);
    if n > 0 {
      FailCountExact(blocks, n - 1);
      WrappedIncrement(Failures(blocks, n - 1));
    }
  }

  lemma {:induction false} NeverFailed(blocks: seq<Verdict>, n: nat)
    requires n <= |blocks| && Failures(blocks, n) == 0
    ensures FailCountAfter(blocks, n) == 0 && CooldownAfter(blocks, n) == 0
    ensures forall i :: 0 <= i < n ==> !blocks[i].Failing()
  {
    if n > 0 {
      NeverFailed(blocks, n - 1);
    }
  }

  lemma {:induction false} NoFailures(blocks: seq<Verdict>, n: nat)
    requires n <= |blocks|
    requires forall i :: 0 <= i < n ==> !blocks[i].Failing()
    ensures Failures(blocks, n) == 0
  {
    if n > 0 {
      NoFailures(blocks, n - 1);
    }
  }

  lemma {:induction false} CooldownFalls(blocks: seq<Verdict>, n: nat)
    requires n <= |blocks|
    ensures Failures(blocks, n) == 0 ==> CooldownAfter(blocks, n) == 0
    ensures Failures(blocks, n) > 0 ==>
              CooldownAfter(blocks, n) == Max0(Backoff(FailCountAfter(blocks, n)) - SinceFailure(blocks, n))
  {
    if n > 0 {
      CooldownFalls(blocks, n - 1);
    }
  }

  lemma EighthPower(k: nat)
    requires k == 8
    ensures Pow2(k) == 256
  {
    assert Pow2(k) == 2 * Pow2(k - 1) == 4 * Pow2(k - 2) == 8 * Pow2(k - 3) == 16 * Pow2(k - 4);
    assert Pow2(k - 4) == 2 * Pow2(k - 5) == 4 * Pow2(k - 6) == 8 * Pow2(k - 7);
  }

  /** Backoff: after the k-th failure, modulo 2^32, the cooldown is 2^k, from the eighth on 256, and it falls by one
      with every block that does not fail. */
  lemma CooldownExact(blocks: seq<Verdict>, n: nat)
    requires n <= |blocks|
    ensures Failures(blocks, n) == 0 ==> CooldownAfter(blocks, n) == 0
    ensures Failures(blocks, n) > 0 ==>
              var k := Failures(blocks, n) % 0x1_0000_0000;
              var left := (if k < 8 then Pow2(k) else 256) - SinceFailure(blocks, n);
              CooldownAfter(blocks, n) == if left > 0 then left else 0
  {
    CooldownFalls(blocks, n);
    FailCountExact(blocks, n);
    EighthPower(8);
  }

  /** TURBO implies a full window with at least 17 matches, no cooldown, and a number of failures since the last reset
      that is a multiple of 2^32. */
  lemma {:induction false} TurboIsEarned(blocks: seq<Verdict>, n: nat)
    requires n <= |blocks| && ModeAfter(blocks, n) == Turbo
    ensures var results := Judged(blocks, n); |results| >= 20 && |Matching(results, |results|)| >= 17
    ensures CooldownAfter(blocks, n) == 0 && FailCountAfter(blocks, n) == 0
    ensures Failures(blocks, n) % 0x1_0000_0000 == 0
  {
    FailCountExact(blocks, n);
    if ModeAfter(blocks, n - 1) == Turbo {
      TurboIsEarned(blocks, n - 1);
    }
    if |Judged(blocks, n)| >= WINDOW {
      WindowIsCounted(Judged(blocks, n), |Judged(blocks, n)|);
    }
  }

  /** EventualTurbo after a failure: with fewer than 2^32 failures there is none, whatever follows, until a reset. */
  lemma NoTurboAfterFailure(blocks: seq<Verdict>, n: nat)
    requires n <= |blocks| && 0 < Failures(blocks, n) < TWO_32
    ensures ModeAfter(blocks, n) == Full
  {
    if ModeAfter(blocks, n) == Turbo {
      TurboIsEarned(blocks, n);
    }
  }

  lemma {:induction false} GoodStretch(blocks: seq<Verdict>, m: nat, k: nat)
    requires m + k <= |blocks|
    requires forall i :: m <= i < m + k ==> blocks[i] == GOOD
    ensures FailCountAfter(blocks, m + k) == FailCountAfter(blocks, m)
    ensures CooldownAfter(blocks, m + k) == Max0(CooldownAfter(blocks, m) - k)
  {
    if k > 0 {
      GoodStretch(blocks, m, k - 1);
    }
  }

  lemma {:induction false} GoodResults(blocks: seq<Verdict>, m: nat, k: nat)
    requires m + k <= |blocks|
    requires forall i :: m <= i < m + k ==> blocks[i] == GOOD
    ensures var before, after := |Judged(blocks, m)|, Judged(blocks, m + k);
            |after| == before + k && forall i :: before <= i < |after| ==> after[i]
  {
    if k > 0 {
      GoodResults(blocks, m, k - 1);
    }
  }

  lemma GoodWindow(blocks: seq<Verdict>, n: nat)
    requires n <= |blocks| && WINDOW <= |Judged(blocks, n)|
    requires var results := Judged(blocks, n); forall i :: |results| - WINDOW <= i < |results| ==> results[i]
    ensures JudgedOk(blocks, n, Turbo) && JudgedOk(blocks, n, Full)
  {
    var results := Judged(blocks, n);
    AllMatch(results, |results| - WINDOW, |results|);
  }

  /** EventualTurbo decided: from any reachable state, twenty good blocks reach TURBO exactly when the counter is 0. */
  lemma EventualTurbo(blocks: seq<Verdict>, m: nat)
    requires m + 20 <= |blocks|
    requires forall i :: m <= i < m + 20 ==> blocks[i] == GOOD
    ensures ModeAfter(blocks, m + 20) == Turbo <==> FailCountAfter(blocks, m) == 0
  {
    GoodStretch(blocks, m, 20);
    if FailCountAfter(blocks, m) == 0 {
      CooldownFalls(blocks, m);
      GoodResults(blocks, m, 20);
      GoodWindow(blocks, m + 20);
    } else if ModeAfter(blocks, m + 20) == Turbo {
      TurboIsEarned(blocks, m + 20);
    }
  }

  // ---- The counter's wrap-around ----

  lemma {:induction false} FailingStretch(blocks: seq<Verdict>, m: nat, k: nat)
    requires m + k <= |blocks|
    requires forall i :: m <= i < m + k ==> blocks[i].Failing()
    ensures Failures(blocks, m + k) == Failures(blocks, m) + k
    ensures Judged(blocks, m + k) == Judged(blocks, m)
    ensures k > 0 ==> CooldownAfter(blocks, m + k) == Backoff(FailCountAfter(blocks, m + k))
  {
    if k > 0 {
      FailingStretch(blocks, m, k - 1);
    }
  }

  /** The bound in NoTurboAfterFailure is needed: twenty good blocks, 2^32 failing ones and a good one end in TURBO. */
  lemma WrapAround(blocks: seq<Verdict>)
    requires |blocks| == 20 + TWO_32 + 1
    requires forall i :: 0 <= i < 20 ==> blocks[i] == GOOD
    requires forall i :: 20 <= i < 20 + TWO_32 ==> blocks[i].Failing()
    requires blocks[20 + TWO_32] == GOOD
    ensures Failures(blocks, |blocks|) == TWO_32 && ModeAfter(blocks, |blocks|) == Turbo
  {
    var n := 20 + TWO_32;
    NoFailures(blocks, 20);
    GoodResults(blocks, 0, 20);
    FailingStretch(blocks, 20, TWO_32);
    FailCountExact(blocks, n);
    GoodStretch(blocks, n, 1);
    GoodResults(blocks, n, 1);
    assert Judged(blocks, n + 1) == Judged(blocks, 20) + [true];
    GoodWindow(blocks, n + 1);
  }

  lemma NextWindow(blocks: seq<Verdict>, v: Verdict)
    ensures var all, n := blocks + [v], |blocks|;
            && FailCountAfter(all, n) == FailCountAfter(blocks, n) && CooldownAfter(all, n) == CooldownAfter(blocks, n)
            && ModeAfter(all, n) == ModeAfter(blocks, n) && Judged(all, n) == Judged(blocks, n)
  {
    CountersPrefix(blocks, [v], |blocks|);
    ModePrefix(blocks, [v], |blocks|);
    JudgedPrefix(blocks, [v], |blocks|);
  }

  /** Sliding the window of the results judged so far is the window of one more. */
  lemma SlideJudged(results: seq<bool>, ok: bool)
    ensures var all := results + [ok]; Slide(Recent(results, |results|), ok) == Recent(all, |all|)
  {
    var all := results + [ok];
    assert Recent(all, |results|) == Recent(results, |results|);
    SlideIsRecent(all, |results|);
  }

  // ---- The struct ----

  class AdaptiveSwitch {
    var history: seq<bool>
    var mode: Mode
    var penaltyCooldown: nat
    var failCount: u32
    const tierToleranceMs: nat

    /** The blocks since construction or the last reset. */
    ghost var blocks: seq<Verdict>

    /** The switch is where a fresh one would be after these blocks. */
    ghost predicate Valid()
      reads this
    {
      State(history, mode, penaltyCooldown, failCount) == After(blocks, |blocks|)
    }

    constructor (tierToleranceMs: nat)
      ensures Valid() && blocks == [] && this.tierToleranceMs == tierToleranceMs
    {
      history, mode, penaltyCooldown, failCount := [], Full, 0, 0;
      this.tierToleranceMs := tierToleranceMs;
      blocks := [];
    }

    method VerifyBlock(orderOk: bool, timeOk: bool, integrityOk: bool) returns (m: Mode)
      requires Valid()
      modifies this
      ensures Valid() && blocks == old(blocks) + [Verdict(orderOk, timeOk, integrityOk)]
      ensures m == mode
      ensures !timeOk || !integrityOk ==> mode == Full
    {
      ghost var v := Verdict(orderOk, timeOk, integrityOk);
      NextWindow(blocks, v);
      if !integrityOk || !timeOk {
        failCount := Increment(failCount);
        penaltyCooldown := Backoff(failCount);
        mode := Full;
      } else {
        UpdateMode(orderOk && timeOk, Judged(blocks, |blocks|));
      }
      blocks := blocks + [v];
      return mode;
    }

    /** The part of verify_block after the two gates: cooldown, window, mode. */
    method UpdateMode(seqOk: bool, ghost results: seq<bool>)
      requires history == Recent(results, |results|)
      modifies this`history, this`penaltyCooldown, this`mode
      ensures history == Recent(results + [seqOk], |results| + 1)
      ensures penaltyCooldown == Max0(old(penaltyCooldown) - 1)
      ensures var rateOk := WindowOk(results + [seqOk], |results| + 1, old(mode));
              mode == if |results| + 1 >= WINDOW && rateOk && penaltyCooldown == 0 && failCount == 0 then Turbo
                      else if !rateOk || penaltyCooldown > 0 then Full
                      else old(mode)
    {
      if penaltyCooldown > 0 {
        penaltyCooldown := penaltyCooldown - 1;
      }
      PushResult(seqOk, results);
      RecentRate(results + [seqOk], |results| + 1, mode);
      var rateOk := RateAtLeast(history, mode);
      if |history| >= WINDOW && rateOk && penaltyCooldown == 0 && failCount == 0 {
        mode := Turbo;
      } else if !rateOk || penaltyCooldown > 0 {
        mode := Full;
      }
    }

    /** The window takes the result in and drops its oldest. */
    method PushResult(seqOk: bool, ghost results: seq<bool>)
      requires history == Recent(results, |results|)
      modifies this`history
      ensures history == Recent(results + [seqOk], |results| + 1)
    {
      SlideJudged(results, seqOk);
      history := history + [seqOk];
      if |history| > WINDOW {
        history := history[1..];
      }
    }

    method Reset()
      modifies this
      ensures Valid() && blocks == []
    {
      history, mode, penaltyCooldown, failCount := [], Full, 0, 0;
      blocks := [];
    }
  }
}
