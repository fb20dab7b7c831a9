/** The Rust switch beside the TypeScript one, fed the same blocks. */
module SwitchRefinement {
  import opened ByteOrder
  import opened SlidingWindow
  import opened RustSwitch
  import TsSwitch

  /** What the TypeScript switch sees of the blocks: it has no integrity gate. */
  function TsView(blocks: seq<Verdict>): (results: seq<bool>)
    ensures |results| == |blocks|
  {
    seq(|blocks|, i requires 0 <= i < |blocks| => blocks[i].orderOk && blocks[i].timeOk)
  }

  lemma {:induction false} AllJudged(blocks: seq<Verdict>, n: nat)
    requires n <= |blocks| && forall i :: 0 <= i < n ==> !blocks[i].Failing()
    ensures Judged(blocks, n) == TsView(blocks)[..n]
  {
    if n > 0 {
      AllJudged(blocks, n - 1);
    }
  }

  lemma SameWindow(blocks: seq<Verdict>, n: nat, mode: Mode)
    requires n <= |blocks| && Failures(blocks, n) == 0
    ensures |Judged(blocks, n)| == n && (JudgedOk(blocks, n, mode) <==> WindowOk(TsView(blocks), n, mode))
    ensures Recent(Judged(blocks, n), n) == Recent(TsView(blocks), n)
  {
    var view := TsView(blocks);
    NeverFailed(blocks, n);
    AllJudged(blocks, n);
    MatchesPrefix(view[..n], view[n..], Oldest(n), n);
    assert view[..n] + view[n..] == view;
  }

  lemma {:induction false} ShortIsFull(blocks: seq<Verdict>, n: nat)
    requires n <= |blocks| && n < WINDOW
    ensures ModeAfter(blocks, n) == Full
  {
    if n > 0 {
      ShortIsFull(blocks, n - 1);
    }
  }

  /** Without failing blocks the two switches agree at every step. */
  lemma {:induction false} SameWithoutFailures(blocks: seq<Verdict>, n: nat)
    requires n <= |blocks| && Failures(blocks, n) == 0
    ensures ModeAfter(blocks, n) == TsSwitch.ModeAfter(TsView(blocks), n)
    ensures Recent(Judged(blocks, n), |Judged(blocks, n)|) == Recent(TsView(blocks), n)
    ensures CooldownAfter(blocks, n) == FailCountAfter(blocks, n) == 0
  {
    NeverFailed(blocks, n);
    if n == 0 {
      assert Recent(Judged(blocks, 0), 0) == Recent(TsView(blocks), 0);
    } else {
      SameWithoutFailures(blocks, n - 1);
      SameWindow(blocks, n, ModeAfter(blocks, n - 1));
      if n < WINDOW {
        ShortIsFull(blocks, n);
      }
    }
  }

  /** With fewer than 2^32 failures the Rust switch is never in TURBO where the TypeScript one is not. */
  lemma RustTurboImpliesTsTurbo(blocks: seq<Verdict>, n: nat)
    requires n <= |blocks| && Failures(blocks, n) < TWO_32
    ensures ModeAfter(blocks, n) == Turbo ==> TsSwitch.ModeAfter(TsView(blocks), n) == Turbo
  {
    if ModeAfter(blocks, n) == Turbo {
      TurboIsEarned(blocks, n);
      SameWithoutFailures(blocks, n);
    }
  }

  /** With fewer than 2^32 failures the Rust switch is in TURBO exactly when no block failed and the results alone earn
      it: at some block at least 95 % of the last 20 matched, and at no block since fewer than 85 %. */
  lemma RustClosedForm(blocks: seq<Verdict>, n: nat)
    requires n <= |blocks| && Failures(blocks, n) < 0x1_0000_0000
    ensures ModeAfter(blocks, n) == Turbo <==>
      Failures(blocks, n) == 0 && exists i: nat :: TsSwitch.HeldSince(TsView(blocks), i, n)
  {
    TsSwitch.ClosedForm(TsView(blocks), n);
    if Failures(blocks, n) == 0 {
      SameWithoutFailures(blocks, n);
    } else {
      NoTurboAfterFailure(blocks, n);
    }
  }

  /** The bound is needed: when the 2^32 failures of WrapAround are late blocks, the TypeScript switch is in FULL. */
  lemma WrapAroundSeparates(blocks: seq<Verdict>)
    requires |blocks| == 20 + TWO_32 + 1
    requires forall i :: 0 <= i < 20 ==> blocks[i] == GOOD
    requires forall i :: 20 <= i < 20 + TWO_32 ==> !blocks[i].timeOk
    requires blocks[20 + TWO_32] == GOOD
    ensures ModeAfter(blocks, |blocks|) == Turbo && TsSwitch.ModeAfter(TsView(blocks), |blocks|) == Full
  {
    WrapAround(blocks);
    var n, view := |blocks|, TsView(blocks);
    NoneMatch(view, n - WINDOW, n - 1);
    TsSwitch.NextMode(view, n - 1);
  }
}
