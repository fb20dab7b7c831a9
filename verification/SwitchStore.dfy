/** The per-context store of src/roughtime/as_store.rs. */
module SwitchStore {
  import opened ByteOrder
  import opened SlidingWindow
  import opened RustSwitch

  datatype Call = Call(ctx: string, verdict: Verdict, toleranceMs: nat)

  datatype Snapshot = Snapshot(ctx: string, mode: Mode, failCount: nat, cooldown: nat, toleranceMs: nat,
      lastUpdatedMs: nat)

  /** The blocks one context was given, in order. */
  function Blocks(calls: seq<Call>, ctx: string): seq<Verdict> {
    if calls == [] then []
    else
      var last := calls[|calls| - 1];
      Blocks(calls[..|calls| - 1], ctx) + (if last.ctx == ctx then [last.verdict] else [])
  }

  /** A single switch run on that context's blocks alone. */
  function Alone(calls: seq<Call>, ctx: string): State {
    After(Blocks(calls, ctx), |Blocks(calls, ctx)|)
  }

  lemma BlocksAppend(calls: seq<Call>, call: Call, ctx: string)
    ensures Blocks(calls + [call], ctx) == Blocks(calls, ctx) + (if call.ctx == ctx then [call.verdict] else [])
  {
    assert (calls + [call])[..|calls|] == calls;
  }

  /** A call for one context leaves every other context where it was. */
  lemma CallsAreIsolated(calls: seq<Call>, call: Call, ctx: string)
    requires call.ctx != ctx
    ensures Alone(calls + [call], ctx) == Alone(calls, ctx)
  {
    BlocksAppend(calls, call, ctx);
    assert Blocks(calls, ctx) + [] == Blocks(calls, ctx);
  }

  /** Interleaving does not matter: a context is where its own calls alone would have left it. */
  lemma {:induction false} OtherContextsDropOut(calls: seq<Call>, ctx: string)
    ensures Blocks(Only(calls, ctx), ctx) == Blocks(calls, ctx)
    ensures Alone(calls, ctx) == Alone(Only(calls, ctx), ctx)
  {
    if calls != [] {
      var m := |calls| - 1;
      OtherContextsDropOut(calls[..m], ctx);
      if calls[m].ctx == ctx {
        BlocksAppend(Only(calls[..m], ctx), calls[m], ctx);
      } else {
        assert Only(calls, ctx) == Only(calls[..m], ctx);
      }
    }
  }

  function Only(calls: seq<Call>, ctx: string): seq<Call> {
    if calls == [] then []
    else
      var m := |calls| - 1;
      Only(calls[..m], ctx) + (if calls[m].ctx == ctx then [calls[m]] else [])
  }

  lemma BlocksAppendAll(calls: seq<Call>, call: Call)
    ensures Blocks(calls + [call], call.ctx) == Blocks(calls, call.ctx) + [call.verdict]
    ensures forall c :: c != call.ctx ==> Blocks(calls + [call], c) == Blocks(calls, c)
  {
    BlocksAppend(calls, call, call.ctx);
    forall c | c != call.ctx
      ensures Blocks(calls + [call], c) == Blocks(calls, c)
    {
      BlocksAppend(calls, call, c);
    }
  }

  function SnapshotOf(ctx: string, s: State, toleranceMs: nat, nowMs: nat): Snapshot {
    Snapshot(ctx, s.mode, s.failCount, s.cooldown, toleranceMs, nowMs)
  }

  predicate SnapshotsAgree(snapshots: map<string, Snapshot>, calls: seq<Call>) {
    forall c {:trigger snapshots[c]} :: c in snapshots ==>
        snapshots[c] == SnapshotOf(c, Alone(calls, c), snapshots[c].toleranceMs, snapshots[c].lastUpdatedMs)
  }

  /** Only the calling context's snapshot has to change. */
  lemma SnapshotsFollow(snapshots: map<string, Snapshot>, calls: seq<Call>, call: Call, nowMs: nat)
    requires SnapshotsAgree(snapshots, calls)
    ensures var after := calls + [call];
            SnapshotsAgree(snapshots[call.ctx := SnapshotOf(call.ctx, Alone(after, call.ctx), call.toleranceMs, nowMs)],
                after)
  {
    forall c | c in snapshots && c != call.ctx
      ensures Alone(calls + [call], c) == Alone(calls, c)
    {
      CallsAreIsolated(calls, call, c);
    }
  }

  class AdaptiveSwitchStore {
    var switches: map<string, AdaptiveSwitch>
    var snapshots: map<string, Snapshot>

    /** The verify_and_persist calls so far. */
    ghost var calls: seq<Call>

    /** Which context a switch belongs to; no switch serves two. */
    ghost var owner: map<AdaptiveSwitch, string>

    ghost predicate Valid()
      reads this, switches.Values
    {
      AllLive() && snapshots.Keys <= switches.Keys && SnapshotsAgree(snapshots, calls)
    }

    ghost predicate AllLive()
      reads this, switches.Values
    {
      && (forall c :: c in switches ==> Live(c))
      && (forall c :: c !in switches ==> Blocks(calls, c) == [])
    }

    /** The context's own switch has run exactly the context's blocks. */
    ghost predicate Live(c: string)
      reads this, switches.Values
      requires c in switches
    {
      var sw := switches[c];
      sw in owner && owner[sw] == c && sw.Valid() && sw.blocks == Blocks(calls, c)
    }

    constructor ()
      ensures Valid() && calls == [] && switches == map[] && snapshots == map[]
    {
      switches, snapshots, calls, owner := map[], map[], [], map[];
    }

    method GetOrCreate(ctx: string, toleranceMs: nat) returns (sw: AdaptiveSwitch)
      requires AllLive()
      modifies this`switches, this`owner
      ensures AllLive()
      ensures ctx in old(switches) ==> switches == old(switches)
      ensures ctx !in old(switches) ==>
                fresh(sw) && switches == old(switches)[ctx := sw] && sw.tierToleranceMs == toleranceMs
      ensures ctx in switches && sw == switches[ctx]
    {
      if ctx !in switches {
        sw := new AdaptiveSwitch(toleranceMs);
        owner := owner[sw := ctx];
        switches := switches[ctx := sw];
      } else {
        sw := switches[ctx];
      }
    }

    /** No other context has this context's switch. */
    lemma SwitchIsOwn(ctx: string, c: string)
      requires AllLive() && ctx in switches && c in switches && c != ctx
      ensures switches[c] != switches[ctx]
    {
      assert Live(c) && Live(ctx);
    }

    /** Giving one context's switch the block of one call keeps every context live. */
    twostate lemma BlockKeepsLive(call: Call)
      requires old(AllLive()) && switches == old(switches) && owner == old(owner) && call.ctx in switches
      requires calls == old(calls) + [call]
      requires var sw := switches[call.ctx]; sw.Valid() && sw.blocks == old(sw.blocks) + [call.verdict]
      requires forall c :: c in switches && c != call.ctx ==> unchanged(switches[c])
      ensures AllLive()
    {
      BlocksAppendAll(old(calls), call);
      forall c | c in switches
        ensures Live(c)
      {
        assert old(Live(c));
      }
    }

    /** Give a context's switch the block of one call. */
    method GiveBlock(ctx: string, v: Verdict, ghost toleranceMs: nat) returns (mode: Mode)
      requires AllLive() && ctx in switches
      modifies this`calls, switches.Values
      ensures AllLive() && mode == switches[ctx].mode
      ensures calls == old(calls) + [Call(ctx, v, toleranceMs)]
    {
      forall c | c in switches && c != ctx
        ensures switches[c] != switches[ctx]
      {
        SwitchIsOwn(ctx, c);
      }
      assert Live(ctx);
      mode := switches[ctx].VerifyBlock(v.orderOk, v.timeOk, v.integrityOk);
      calls := calls + [Call(ctx, v, toleranceMs)];
      BlockKeepsLive(Call(ctx, v, toleranceMs));
    }

    /** The first half of verify_and_persist: find the context's switch and give it the block. */
    method RunSwitch(ctx: string, v: Verdict, toleranceMs: nat) returns (mode: Mode)
      requires AllLive()
      modifies this`switches, this`owner, this`calls, switches.Values
      ensures AllLive() && ctx in switches && mode == switches[ctx].mode
      ensures forall c :: c in old(switches) ==> c in switches
      ensures calls == old(calls) + [Call(ctx, v, toleranceMs)]
    {
      var _ := GetOrCreate(ctx, toleranceMs);
      mode := GiveBlock(ctx, v, toleranceMs);
    }

    /** Every context, before and after, is where a switch of its own would be; the snapshot shows that state and this
        call's tolerance. */
    method VerifyAndPersist(ctx: string, orderOk: bool, timeOk: bool, integrityOk: bool, toleranceMs: nat, nowMs: nat)
        returns (mode: Mode)
      requires Valid()
      modifies this, switches.Values
      ensures Valid()
      ensures calls == old(calls) + [Call(ctx, Verdict(orderOk, timeOk, integrityOk), toleranceMs)]
      ensures mode == Alone(calls, ctx).mode
      ensures snapshots == old(snapshots)[ctx := SnapshotOf(ctx, Alone(calls, ctx), toleranceMs, nowMs)]
    {
      mode := RunSwitch(ctx, Verdict(orderOk, timeOk, integrityOk), toleranceMs);
      var sw := switches[ctx];
      assert Live(ctx);
      SnapshotsFollow(snapshots, old(calls), Call(ctx, Verdict(orderOk, timeOk, integrityOk), toleranceMs), nowMs);
      snapshots := snapshots[ctx := Snapshot(ctx, mode, sw.failCount, sw.penaltyCooldown, toleranceMs, nowMs)];
    }

    /** A stored snapshot shows the mode, failure count and cooldown of the context's live switch. */
    lemma SnapshotShowsLiveSwitch(c: string)
      requires Valid() && c in snapshots
      ensures c in switches
      ensures var s, sw := snapshots[c], switches[c];
              s.ctx == c && s.mode == sw.mode && s.failCount == sw.failCount && s.cooldown == sw.penaltyCooldown
    {
      assert Live(c);
    }

    /** The mode of a switch run on this context's blocks alone; FULL for a context never seen. */
    function CurrentMode(ctx: string): (mode: Mode)
      requires Valid()
      reads this, switches.Values
      ensures mode == Alone(calls, ctx).mode
    {
      assert ctx in switches ==> Live(ctx);
      if ctx in switches then switches[ctx].mode else Full
    }
  }
}
