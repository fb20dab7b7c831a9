/** What the binary form of a Proof of Time does to its divergence check (src/time_synthesis.ts). */
module PotDivergence {
  import opened Wrappers
  import opened ByteOrder
  import opened NonceCache
  import opened TimeSynthesis
  import opened Float32
  import opened PotBinary

  function Text(b: Bytes): string {
    seq(|b|, i requires 0 <= i < |b| => b[i] as char)
  }

  function ReadingOf(r: BinReading): SourceReading {
    SourceReading(Text(r.source.utf8), r.timestamp, r.uncertainty, r.stratum)
  }

  function ReadingsOf(rs: seq<BinReading>): (ss: seq<SourceReading>)
    ensures |ss| == |rs|
  {
    seq(|rs|, i requires 0 <= i < |rs| => ReadingOf(rs[i]))
  }

  function PotOf(p: BinPot): ProofOfTime {
    ProofOfTime(p.timestamp, p.uncertainty, if p.sources >= 0 then p.sources else 0, p.stratum, p.confidence,
                ReadingsOf(p.readings), Text(p.nonce), p.expiresAt)
  }

  // ---- The check as one limit a reading ----

  /** The least of the PoT's own stratum and those its readings state. */
  function Lowest(own: int, strata: seq<Option<int>>): int {
    if strata == [] then own
    else
      var before, last := Lowest(own, strata[..|strata| - 1]), strata[|strata| - 1];
      if last.Some? && last.value < before then last.value else before
  }

  function Strata(rs: seq<BinReading>): (ss: seq<Option<int>>)
    ensures |ss| == |rs|
  {
    seq(|rs|, i requires 0 <= i < |rs| => rs[i].stratum)
  }

  lemma {:induction false} LowestOfStrata(own: int, rs: seq<BinReading>)
    ensures LowestStratum(own, ReadingsOf(rs)) == Lowest(own, Strata(rs))
  {
    if rs != [] {
      var m := |rs| - 1;
      LowestOfStrata(own, rs[..m]);
      assert ReadingsOf(rs)[..m] == ReadingsOf(rs[..m]) && Strata(rs)[..m] == Strata(rs[..m]);
    }
  }

  lemma {:induction false} LowestBounds(own: int, strata: seq<Option<int>>)
    ensures Lowest(own, strata) <= own
    ensures (forall i :: 0 <= i < |strata| ==> strata[i] == None) ==> Lowest(own, strata) == own
  {
    if strata != [] {
      LowestBounds(own, strata[..|strata| - 1]);
    }
  }

  /** The stratum floor a PoT's readings are held to. */
  function Floor(p: BinPot): int {
    ToleranceForStratum(Lowest(p.stratum, Strata(p.readings)))
  }

  /** How far a reading may be from the PoT's time: its own uncertainty, but at least the floor. */
  function Limit(floor: int, uncertainty: real): int {
    if OwnTolerance(uncertainty) > floor then OwnTolerance(uncertainty) else floor
  }

  function Limits(p: BinPot): (ls: seq<int>)
    ensures |ls| == |p.readings|
  {
    seq(|p.readings|, i requires 0 <= i < |p.readings| => Limit(Floor(p), p.readings[i].uncertainty))
  }

  function Times(p: BinPot): (ts: seq<int>)
    ensures |ts| == |p.readings|
  {
    seq(|p.readings|, i requires 0 <= i < |p.readings| => p.readings[i].timestamp)
  }

  function Apart(x: int, y: int): int {
    if x > y then x - y else y - x
  }

  predicate Within(t: int, ts: seq<int>, limits: seq<int>)
    requires |ts| == |limits|
  {
    forall i :: 0 <= i < |ts| ==> Apart(ts[i], t) <= limits[i]
  }

  lemma ToleratedByLimit(t: int, floor: int, r: SourceReading)
    ensures Tolerated(t, floor, r) <==> Apart(r.timestamp, t) <= Limit(floor, r.uncertainty)
  {
  }

  lemma CheckByLimits(p: BinPot)
    ensures AllTolerated(PotOf(p)) <==> Within(p.timestamp, Times(p), Limits(p))
  {
    LowestOfStrata(p.stratum, p.readings);
    var pot := PotOf(p);
    forall i | 0 <= i < |p.readings|
      ensures Tolerated(pot.timestamp, Floor(p), pot.sourceReadings[i]) <==>
        Apart(Times(p)[i], p.timestamp) <= Limits(p)[i]
    {
      ToleratedByLimit(pot.timestamp, Floor(p), pot.sourceReadings[i]);
    }
  }

  // ---- One set of limits against another, over all timestamps ----

  /** No two 64-bit timestamps are further apart. */
  const FARTHEST: int := TWO_64 - 1

  function Capped(limit: int): int {
    if limit < FARTHEST then limit else FARTHEST
  }

  /** Whatever 64-bit timestamps pass the first limits pass the second. */
  ghost predicate Implies(a: seq<int>, b: seq<int>)
    requires |a| == |b|
  {
    forall t: u64, ts: seq<u64> {:trigger Within(t, ts, b)} :: |ts| == |a| && Within(t, ts, a) ==> Within(t, ts, b)
  }

  /** All readings at time 0 but one. */
  function OneAway(n: nat, i: nat, d: u64): (ts: seq<u64>)
    ensures |ts| == n
  {
    seq(n, k => if k == i then d else 0)
  }

  lemma TighterLimitFails(a: seq<int>, b: seq<int>, i: nat)
    requires |a| == |b| && i < |a| && 0 <= b[i] && Capped(b[i]) < Capped(a[i])
    requires forall k :: 0 <= k < |a| ==> a[k] >= 0
    ensures !Implies(a, b)
  {
    var ts := OneAway(|a|, i, b[i] + 1);
    assert ts[i] == b[i] + 1;
    assert Within(0, ts, a) && !Within(0, ts, b);
  }

  lemma ImpliesExactly(a: seq<int>, b: seq<int>)
    requires |a| == |b| && forall k :: 0 <= k < |a| ==> a[k] >= 0 && b[k] >= 0
    ensures Implies(a, b) <==> forall i :: 0 <= i < |a| ==> Capped(a[i]) <= Capped(b[i])
  {
    if i :| 0 <= i < |a| && Capped(b[i]) < Capped(a[i]) {
      TighterLimitFails(a, b, i);
    } else {
      forall t: u64, ts: seq<u64> | |ts| == |a| && Within(t, ts, a)
        ensures Within(t, ts, b)
      {
        forall i | 0 <= i < |ts|
          ensures Apart(ts[i], t) <= b[i]
        {
          assert Apart(ts[i], t) <= a[i] && Capped(a[i]) <= Capped(b[i]);
        }
      }
    }
  }

  // ---- The check before and after the codec ----

  /** The PoT at other timestamps. */
  function Retimed(p: BinPot, t: u64, ts: seq<u64>): BinPot
    requires |ts| == |p.readings|
  {
    p.(timestamp := t, readings := seq(|ts|, i requires 0 <= i < |ts| => p.readings[i].(timestamp := ts[i])))
  }

  lemma RetimedKeepsLimits(p: BinPot, t: u64, ts: seq<u64>)
    requires |ts| == |p.readings|
    ensures Times(Retimed(p, t, ts)) == ts && Limits(Retimed(p, t, ts)) == Limits(p)
  {
    assert Strata(Retimed(p, t, ts).readings) == Strata(p.readings);
  }

  lemma RetimedThenKept(c: Host, p: BinPot, t: u64, ts: seq<u64>)
    requires |ts| == |p.readings|
    ensures Kept(c, Retimed(p, t, ts)) == Retimed(Kept(c, p), t, ts)
  {
  }

  /** At these timestamps the PoT passes the divergence check. */
  predicate PassesAt(p: BinPot, t: u64, ts: seq<u64>)
    requires |ts| == |p.readings|
  {
    AllTolerated(PotOf(Retimed(p, t, ts)))
  }

  predicate DecodedPassesAt(c: Host, p: BinPot, t: u64, ts: seq<u64>)
    requires |ts| == |p.readings|
  {
    AllTolerated(PotOf(Kept(c, Retimed(p, t, ts))))
  }

  lemma PassesByLimits(c: Host, p: BinPot, t: u64, ts: seq<u64>)
    requires |ts| == |p.readings|
    ensures PassesAt(p, t, ts) <==> Within(t, ts, Limits(p))
    ensures DecodedPassesAt(c, p, t, ts) <==> Within(t, ts, Limits(Kept(c, p)))
  {
    RetimedKeepsLimits(p, t, ts);
    CheckByLimits(Retimed(p, t, ts));
    RetimedThenKept(c, p, t, ts);
    RetimedKeepsLimits(Kept(c, p), t, ts);
    CheckByLimits(Retimed(Kept(c, p), t, ts));
  }

  /** Decoding never makes the PoT fail, whatever its timestamps. */
  ghost predicate NeverTightens(c: Host, p: BinPot) {
    forall t: u64, ts: seq<u64> :: |ts| == |p.readings| && PassesAt(p, t, ts) ==> DecodedPassesAt(c, p, t, ts)
  }

  /** Decoding never makes the PoT pass. */
  ghost predicate NeverLoosens(c: Host, p: BinPot) {
    forall t: u64, ts: seq<u64> :: |ts| == |p.readings| && DecodedPassesAt(c, p, t, ts) ==> PassesAt(p, t, ts)
  }

  lemma ByLimits(c: Host, p: BinPot)
    ensures NeverTightens(c, p) <==> Implies(Limits(p), Limits(Kept(c, p)))
    ensures NeverLoosens(c, p) <==> Implies(Limits(Kept(c, p)), Limits(p))
  {
    forall t: u64, ts: seq<u64> | |ts| == |p.readings|
      ensures PassesAt(p, t, ts) <==> Within(t, ts, Limits(p))
      ensures DecodedPassesAt(c, p, t, ts) <==> Within(t, ts, Limits(Kept(c, p)))
    {
      PassesByLimits(c, p, t, ts);
    }
  }

  /** The decoded limits: the floor of the PoT's own stratum, which is no lower, and the rounded uncertainties. */
  lemma LimitsAround(c: Host, p: BinPot, i: nat)
    requires i < |p.readings|
    ensures var u, own := p.readings[i].uncertainty, ToleranceForStratum(p.stratum);
            && 0 <= Floor(p) <= own && Limits(p)[i] == Limit(Floor(p), u)
            && Limits(Kept(c, p))[i] == Limit(own, Trip(c.float, u))
  {
    LowestBounds(p.stratum, Strata(p.readings));
    LowestBounds(p.stratum, Strata(Kept(c, p).readings));
  }

  /** The reading's own tolerance is not cut below what it was, or the floor of the PoT's own stratum covers it; beyond
      the distance of 64-bit timestamps nothing matters. */
  predicate StaysCovered(c: Host, p: BinPot, u: real) {
    var after := Limit(ToleranceForStratum(p.stratum), Trip(c.float, u));
    OwnTolerance(u) <= after || FARTHEST <= after
  }

  /** A PoT that passes the divergence check passes it after decoding, at all timestamps, exactly when every reading's
      tolerance survives the rounding of its uncertainty or the floor makes up for it. */
  lemma TightensExactly(c: Host, p: BinPot)
    ensures NeverTightens(c, p) <==> forall i :: 0 <= i < |p.readings| ==> StaysCovered(c, p, p.readings[i].uncertainty)
  {
    var a, b := Limits(p), Limits(Kept(c, p));
    forall i | 0 <= i < |p.readings|
      ensures 0 <= a[i] && 0 <= b[i]
      ensures Capped(a[i]) <= Capped(b[i]) <==> StaysCovered(c, p, p.readings[i].uncertainty)
    {
      LimitsAround(c, p, i);
    }
    ByLimits(c, p);
    ImpliesExactly(a, b);
  }

  /** A PoT that passes after decoding passed before, at all timestamps, exactly when no reading's limit has grown. */
  lemma LoosensExactly(c: Host, p: BinPot)
    ensures NeverLoosens(c, p) <==>
            forall i :: 0 <= i < |p.readings| ==> Capped(Limits(Kept(c, p))[i]) <= Capped(Limits(p)[i])
  {
    var a, b := Limits(p), Limits(Kept(c, p));
    forall i | 0 <= i < |p.readings|
      ensures 0 <= a[i] && 0 <= b[i]
    {
      LimitsAround(c, p, i);
    }
    ByLimits(c, p);
    ImpliesExactly(b, a);
  }

  /** So losing the strata shows: where some reading's stratum lowers the floor, a reading less uncertain than the floor
      of the PoT's own stratum is refused at some timestamps before encoding and let through after. */
  lemma LostStrataLoosen(c: Host, p: BinPot, i: nat)
    requires i < |p.readings| && OwnTolerance(p.readings[i].uncertainty) < ToleranceForStratum(p.stratum)
    requires Floor(p) < ToleranceForStratum(p.stratum)
    ensures !NeverLoosens(c, p)
  {
    LimitsAround(c, p, i);
    LoosensExactly(c, p);
  }

  /** Uncertainties that are single-precision values are no trouble. */
  lemma RepresentableSurvives(c: Host, p: BinPot)
    requires Rounds(c.float)
    requires forall i :: 0 <= i < |p.readings| ==>
      InFloatRange(p.readings[i].uncertainty) && Representable(p.readings[i].uncertainty)
    ensures NeverTightens(c, p)
  {
    forall i | 0 <= i < |p.readings|
      ensures StaysCovered(c, p, p.readings[i].uncertainty)
    {
      SurvivesExactly(c.float, p.readings[i].uncertainty);
    }
    TightensExactly(c, p);
  }

  /** A stratum-2 PoT with one reading, 100.1 ms off and 100.1 ms uncertain. */
  const AT_THE_EDGE: BinPot := BinPot(0, 0.0, 1, 2, 1.0, [BinReading(JsText(0, []), 100_100_000, 100.1, None)], [], 0)

  /** Others are: this PoT passes before encoding and fails after with every codec that rounds, because 100.1 comes back
      as 100.0999985. */
  lemma RoundingTightens(c: Host)
    requires Rounds(c.float)
    ensures Encodable(AT_THE_EDGE) && AllTolerated(PotOf(AT_THE_EDGE)) && !AllTolerated(PotOf(Kept(c, AT_THE_EDGE)))
  {
    var p := AT_THE_EDGE;
    TripOf100_1(c.float);
    assert OwnTolerance(100.1) == 100_100_000 && OwnTolerance(13120307.0 / 131072.0) == 100_099_998;
    CheckByLimits(p);
    CheckByLimits(Kept(c, p));
    LimitsAround(c, p, 0);
    assert Times(p)[0] == Times(Kept(c, p))[0] == 100_100_000;
  }

  // ---- The whole verdict ----

  /** Sent in binary, a PoT is accepted where it would have been, if the divergence check still passes and its
      confidence has not been rounded to nothing: expiry and nonce are kept. */
  lemma VerdictSurvives(c: Host, p: BinPot, l: Ledger, checkedAt: int, recordedAt: int)
    requires Accepts(l, Attempt(PotOf(p), checkedAt, recordedAt)) && AllTolerated(PotOf(Kept(c, p)))
    ensures Accepts(l, Attempt(PotOf(Kept(c, p)), checkedAt, recordedAt)) <==> Trip(c.float, p.confidence) > 0.0
  {
    assert PotOf(Kept(c, p)).nonce == PotOf(p).nonce;
  }
}
