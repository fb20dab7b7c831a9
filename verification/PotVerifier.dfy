/** The frame verifier and its in-memory nonce cache: src/pot_verifier.ts. */
module PotVerifier {
  import opened Wrappers
  import opened ByteOrder
  import opened PotRecord

  datatype VerifyError =
    | FrameMalformed | UnknownVersion | BindingKeyMismatch | SignatureInvalid | SubmissionOutsideTolerance | NonceReplay

  /** The exporter of a TLS session: a 32-byte key for each context. */
  type Exporter = Bytes -> Digest

  /** The TLS session's exporter and the issuer's signature check, false on an exception. */
  datatype Session = Session(exporter: Exporter, verifySig: (Bytes, Bytes) -> bool)

  function ToleranceMs(tier: int): int {
    if tier == 0 then 60_000 else if tier == 1 then 2_000 else if tier == 2 then 12_000 else if tier == 3 then 100
        else 2_000
  }

  function PotTimestampMs(p: PotFrame): int {
    p.timestamp / 1_000_000
  }

  /** The checks before the nonce, in the order of the code. */
  function Screen(s: Session, frame: Bytes, nowMs: int): Result<PotFrame, VerifyError> {
    if Decode(frame).None? then Failure(FrameMalformed)
    else
      var p := Decode(frame).value;
      if p.version != 1 then Failure(UnknownVersion)
      else if s.exporter(WithoutSig(p.potRecord)) != p.bindingKey then Failure(BindingKeyMismatch)
      else if !s.verifySig(p.potRecord[..79], p.ed25519Sig) then Failure(SignatureInvalid)
      else if nowMs - PotTimestampMs(p) > ToleranceMs(p.tier) then Failure(SubmissionOutsideTolerance)
      else Success(p)
  }

  // ---- What a caller can check of a frame ----

  predicate KeyMatches(s: Session, frame: Bytes)
    requires |frame| == 175
  {
    s.exporter(frame[32..111]) == frame[..32]
  }

  predicate Signed(s: Session, frame: Bytes)
    requires |frame| == 175
  {
    s.verifySig(frame[32..111], frame[111..175])
  }

  /** No older than its tier allows: 60 s, 2 s, 12 s or 100 ms, and 2 s for the tiers there are no numbers for. A frame
      stamped ahead of the clock is recent. */
  predicate Recent(frame: Bytes, nowMs: int)
    requires |frame| == 175
  {
    TierAllows(frame[32] % 16, nowMs - Big64(frame, 35) / 1_000_000)
  }

  predicate TierAllows(tier: int, ageMs: int) {
    ageMs <= match tier {
      case 0 => 60_000
      case 1 => 2_000
      case 2 => 12_000
      case 3 => 100
      case _ => 2_000
    }
  }

  lemma WithinTolerance(tier: int, ageMs: int)
    ensures ageMs <= ToleranceMs(tier) <==> TierAllows(tier, ageMs)
  {
  }

  lemma SignedInFrame(frame: Bytes)
    requires |frame| == 175
    ensures frame[32..175][..79] == frame[32..111]
  {
  }

  /** The screen passes exactly the frames of the right size and version, bound to the session, signed and recent, and
      otherwise names the first of these that fails. */
  lemma ScreenMeans(s: Session, frame: Bytes, nowMs: int)
    ensures var r, f := Screen(s, frame, nowMs), frame;
            && (r.Success? <==>
                  |f| == 175 && f[32] / 16 == 1 && KeyMatches(s, f) && Signed(s, f) && Recent(f, nowMs))
            && (r.Success? ==> ReadsFrame(r.value, f))
            && (r == Failure(FrameMalformed) <==> |f| != 175)
            && (r == Failure(UnknownVersion) <==> |f| == 175 && f[32] / 16 != 1)
            && (r == Failure(BindingKeyMismatch) <==> |f| == 175 && f[32] / 16 == 1 && !KeyMatches(s, f))
            && (r == Failure(SignatureInvalid) <==>
                  |f| == 175 && f[32] / 16 == 1 && KeyMatches(s, f) && !Signed(s, f))
            && (r == Failure(SubmissionOutsideTolerance) <==>
                  |f| == 175 && f[32] / 16 == 1 && KeyMatches(s, f) && Signed(s, f) && !Recent(f, nowMs))
            && r != Failure(NonceReplay)
  {
    DecodeMeans(frame);
    if |frame| == 175 {
      var p := Decode(frame).value;
      SignedInFrame(frame);
      WithinTolerance(p.tier, nowMs - PotTimestampMs(p));
    }
  }

  // ---- The nonce cache: nonce to expiry ----

  type Nonces = map<Bytes, int>

  /** has: an expired entry is deleted on the way. */
  predicate HasNonce(cache: Nonces, nonce: Bytes, now: int) {
    nonce in cache && now <= cache[nonce]
  }

  function AfterHas(cache: Nonces, nonce: Bytes, now: int): Nonces {
    if nonce in cache && now > cache[nonce] then cache - {nonce} else cache
  }

  function Swept(cache: Nonces, now: int): Nonces {
    map n | n in cache && now <= cache[n] :: cache[n]
  }

  /** add: sweep a cache of more than 10,000 entries, then store the expiry. */
  function AfterAdd(cache: Nonces, nonce: Bytes, ttlMs: int, sweptAt: int, addedAt: int): Nonces {
    (if |cache| > 10_000 then Swept(cache, sweptAt) else cache)[nonce := addedAt + ttlMs]
  }

  // ---- Runs ----

  /** One verify call: the frame on its session and the clock readings in the order they are made. */
  datatype Call = Call(session: Session, frame: Bytes, nowMs: int, hasAt: int, sweptAt: int, addedAt: int)

  /** The cache and, for the record, every acceptance so far: which nonce, and when it was added. */
  datatype State = State(cache: Nonces, accepted: seq<(Bytes, int)>)

  function Outcome(cache: Nonces, c: Call): Result<PotFrame, VerifyError> {
    var p :- Screen(c.session, c.frame, c.nowMs);
    if HasNonce(cache, p.nonce, c.hasAt) then Failure(NonceReplay) else Success(p)
  }

  function Step(st: State, c: Call, ttlMs: int): State {
    var screened := Screen(c.session, c.frame, c.nowMs);
    if screened.Failure? then st
    else if HasNonce(st.cache, screened.value.nonce, c.hasAt) then st
    else
      var nonce := screened.value.nonce;
      State(AfterAdd(AfterHas(st.cache, nonce, c.hasAt), nonce, ttlMs, c.sweptAt, c.addedAt),
            st.accepted + [(nonce, c.addedAt)])
  }

  function After(calls: seq<Call>, ttlMs: int, n: nat): State
    requires n <= |calls|
  {
    if n == 0 then State(map[], []) else Step(After(calls, ttlMs, n - 1), calls[n - 1], ttlMs)
  }

  predicate Ordered(c: Call) {
    c.nowMs <= c.hasAt <= c.sweptAt <= c.addedAt
  }

  /** One clock that never goes back, within a call or between calls. */
  predicate Monotone(calls: seq<Call>) {
    && (forall i :: 0 <= i < |calls| ==> Ordered(calls[i]))
    && (forall i, j :: 0 <= i < j < |calls| ==> calls[i].addedAt <= calls[j].nowMs)
  }

  /** Some acceptance of the nonce is at most ttlMs old. */
  ghost predicate InForce(accepted: seq<(Bytes, int)>, nonce: Bytes, ttlMs: int, now: int) {
    exists i :: 0 <= i < |accepted| && accepted[i].0 == nonce && now <= accepted[i].1 + ttlMs
  }

  /** From a time on, the swept and lazily pruned map answers exactly as the full list of acceptances would. */
  ghost predicate Refines(st: State, ttlMs: int, from: int) {
    forall nonce, now :: from <= now ==> (HasNonce(st.cache, nonce, now) <==> InForce(st.accepted, nonce, ttlMs, now))
  }

  predicate AddedBefore(st: State, t: int) {
    forall i :: 0 <= i < |st.accepted| ==> st.accepted[i].1 <= t
  }

  lemma PrunedAnswers(cache: Nonces, nonce: Bytes, hasAt: int, sweptAt: int, other: Bytes, now: int)
    requires hasAt <= sweptAt <= now
    ensures HasNonce(AfterHas(cache, nonce, hasAt), other, now) <==> HasNonce(cache, other, now)
    ensures HasNonce(Swept(cache, sweptAt), other, now) <==> HasNonce(cache, other, now)
  {
  }

  lemma InForceAppend(accepted: seq<(Bytes, int)>, nonce: Bytes, addedAt: int, other: Bytes, ttlMs: int, now: int)
    ensures InForce(accepted + [(nonce, addedAt)], other, ttlMs, now)
       <==> InForce(accepted, other, ttlMs, now) || (other == nonce && now <= addedAt + ttlMs)
  {
    var longer := accepted + [(nonce, addedAt)];
    if InForce(accepted, other, ttlMs, now) {
      var i :| 0 <= i < |accepted| && accepted[i].0 == other && now <= accepted[i].1 + ttlMs;
      assert longer[i] == accepted[i];
    }
    assert longer[|accepted|] == (nonce, addedAt);
  }

  /** An accepted call keeps the refinement from the moment its nonce is stored. */
  lemma AddRefines(st: State, nonce: Bytes, ttlMs: int, from: int, hasAt: int, sweptAt: int, addedAt: int)
    requires Refines(st, ttlMs, from) && AddedBefore(st, addedAt) && from <= hasAt <= sweptAt <= addedAt
    ensures var cache := AfterAdd(AfterHas(st.cache, nonce, hasAt), nonce, ttlMs, sweptAt, addedAt);
            Refines(State(cache, st.accepted + [(nonce, addedAt)]), ttlMs, addedAt)
  {
    var pruned := AfterHas(st.cache, nonce, hasAt);
    var cache, accepted := AfterAdd(pruned, nonce, ttlMs, sweptAt, addedAt), st.accepted + [(nonce, addedAt)];
    forall other, now | addedAt <= now
      ensures HasNonce(cache, other, now) <==> InForce(accepted, other, ttlMs, now)
    {
      PrunedAnswers(st.cache, nonce, hasAt, sweptAt, other, now);
      PrunedAnswers(pruned, nonce, hasAt, sweptAt, other, now);
      InForceAppend(st.accepted, nonce, addedAt, other, ttlMs, now);
      if other == nonce && InForce(st.accepted, other, ttlMs, now) {
        var i :| 0 <= i < |st.accepted| && st.accepted[i].0 == other && now <= st.accepted[i].1 + ttlMs;
      }
    }
  }

  lemma StepRefines(st: State, c: Call, ttlMs: int)
    requires Refines(st, ttlMs, c.nowMs) && AddedBefore(st, c.nowMs) && Ordered(c)
    ensures Refines(Step(st, c, ttlMs), ttlMs, c.addedAt) && AddedBefore(Step(st, c, ttlMs), c.addedAt)
  {
    var screened := Screen(c.session, c.frame, c.nowMs);
    if screened.Success? && !HasNonce(st.cache, screened.value.nonce, c.hasAt) {
      AddRefines(st, screened.value.nonce, ttlMs, c.nowMs, c.hasAt, c.sweptAt, c.addedAt);
    }
  }

  lemma {:induction false} RunRefines(calls: seq<Call>, ttlMs: int, n: nat, from: int)
    requires n <= |calls| && Monotone(calls)
    requires forall i :: 0 <= i < n ==> calls[i].addedAt <= from
    ensures Refines(After(calls, ttlMs, n), ttlMs, from)
    ensures AddedBefore(After(calls, ttlMs, n), from)
  {
    if n > 0 {
      RunRefines(calls, ttlMs, n - 1, calls[n - 1].nowMs);
      StepRefines(After(calls, ttlMs, n - 1), calls[n - 1], ttlMs);
    }
  }

  lemma {:induction false} AcceptancesGrow(calls: seq<Call>, ttlMs: int, m: nat, n: nat)
    requires m <= n <= |calls|
    ensures After(calls, ttlMs, m).accepted <= After(calls, ttlMs, n).accepted
  {
    if m < n {
      AcceptancesGrow(calls, ttlMs, m, n - 1);
    }
  }

  /** Call i accepted a frame with this nonce. */
  predicate Accepts(calls: seq<Call>, ttlMs: int, i: nat, nonce: Bytes)
    requires i < |calls|
  {
    var r := Outcome(After(calls, ttlMs, i).cache, calls[i]);
    r.Success? && r.value.nonce == nonce
  }

  lemma AcceptanceInForce(calls: seq<Call>, ttlMs: int, i: nat, j: nat, nonce: Bytes, now: int)
    requires i < j <= |calls| && Accepts(calls, ttlMs, i, nonce) && now <= calls[i].addedAt + ttlMs
    ensures InForce(After(calls, ttlMs, j).accepted, nonce, ttlMs, now)
  {
    var p := |After(calls, ttlMs, i).accepted|;
    AcceptancesGrow(calls, ttlMs, i + 1, j);
    assert After(calls, ttlMs, i + 1).accepted[p] == (nonce, calls[i].addedAt);
    assert After(calls, ttlMs, j).accepted[p] == (nonce, calls[i].addedAt);
  }

  /** Over any run on one clock, two acceptances of a nonce are more than ttlMs apart. */
  lemma AcceptancesApart(calls: seq<Call>, ttlMs: int, i: nat, j: nat, nonce: Bytes)
    requires i < j < |calls| && Monotone(calls)
    requires Accepts(calls, ttlMs, i, nonce) && Accepts(calls, ttlMs, j, nonce)
    ensures calls[j].hasAt - calls[i].addedAt > ttlMs
  {
    RunRefines(calls, ttlMs, j, calls[j].nowMs);
    if calls[j].hasAt <= calls[i].addedAt + ttlMs {
      AcceptanceInForce(calls, ttlMs, i, j, nonce, calls[j].hasAt);
    }
  }

  /** A frame stamped no further ahead of the first acceptance than ttlMs minus its tier's tolerance is never accepted
      twice. The lag is what the clock moves between the recency check and the cache look-up of the later call. */
  lemma NeverAcceptedTwice(calls: seq<Call>, ttlMs: int, i: nat, j: nat)
    requires i < j < |calls| && Monotone(calls) && calls[i].frame == calls[j].frame
    requires Outcome(After(calls, ttlMs, i).cache, calls[i]).Success?
    requires var p := Decode(calls[i].frame).value; var lag := calls[j].hasAt - calls[j].nowMs;
             PotTimestampMs(p) + ToleranceMs(p.tier) + lag <= calls[i].addedAt + ttlMs
    ensures Outcome(After(calls, ttlMs, j).cache, calls[j]).Failure?
  {
    var nonce := Decode(calls[i].frame).value.nonce;
    if Outcome(After(calls, ttlMs, j).cache, calls[j]).Success? {
      assert Accepts(calls, ttlMs, i, nonce) && Accepts(calls, ttlMs, j, nonce);
      AcceptancesApart(calls, ttlMs, i, j, nonce);
    }
  }

  /** The bound is exact: with no acceptance of the nonce in between, the second submission of an accepted frame is
      accepted if and only if it passes the screen again and its nonce has outlived ttlMs. */
  lemma SecondSubmission(calls: seq<Call>, ttlMs: int, i: nat, j: nat, p: PotFrame)
    requires i < j < |calls| && Monotone(calls) && Accepts(calls, ttlMs, i, p.nonce)
    requires forall k :: 0 <= k < j && k != i ==> !Accepts(calls, ttlMs, k, p.nonce)
    requires Decode(calls[j].frame) == Some(p)
    ensures Outcome(After(calls, ttlMs, j).cache, calls[j]).Success? <==>
            Screen(calls[j].session, calls[j].frame, calls[j].nowMs).Success?
                && calls[j].hasAt > calls[i].addedAt + ttlMs
  {
    RunRefines(calls, ttlMs, j, calls[j].nowMs);
    if calls[j].hasAt <= calls[i].addedAt + ttlMs {
      AcceptanceInForce(calls, ttlMs, i, j, p.nonce, calls[j].hasAt);
    } else {
      NotInForce(calls, ttlMs, i, j, p.nonce, calls[j].hasAt);
    }
  }

  lemma {:induction false} NotInForce(calls: seq<Call>, ttlMs: int, i: nat, n: nat, nonce: Bytes, now: int)
    requires i < |calls| && n <= |calls| && now > calls[i].addedAt + ttlMs
    requires forall k :: 0 <= k < n && k != i ==> !Accepts(calls, ttlMs, k, nonce)
    ensures !InForce(After(calls, ttlMs, n).accepted, nonce, ttlMs, now)
  {
    if n > 0 {
      NotInForce(calls, ttlMs, i, n - 1, nonce, now);
      var r := Outcome(After(calls, ttlMs, n - 1).cache, calls[n - 1]);
      if r.Success? {
        InForceAppend(After(calls, ttlMs, n - 1).accepted, r.value.nonce, calls[n - 1].addedAt, nonce, ttlMs, now);
        assert Accepts(calls, ttlMs, n - 1, r.value.nonce);
      }
    }
  }

  // ---- A Rust-issued frame ----

  /** A record assembled and signed in Rust and framed under a secret passes the TypeScript screen exactly when Rust's
      HMAC and the session's exporter give its signed part the same key and it is recent enough; each failure is
      reported as what it is. Nothing in the code makes the two keys equal: they are different functions. */
  lemma RustFrameScreens(s: Session, hmac: Mac, secret: Bytes, sign: Bytes -> Sig64, f: Fields, commitment: Digest,
      nowMs: int)
    requires f.version == 1 && f.tier < 0x10
    requires forall m {:trigger sign(m)} :: s.verifySig(m, sign(m))
    ensures var signed := SignedPart(f, commitment);
            var r := Screen(s, ExtendedToBytes(BuildExtended(hmac, secret, Record(f, commitment, sign(signed)))),
                nowMs);
            var sameKey := DeriveBindingKey(hmac, secret, signed) == s.exporter(signed);
            var recent := TierAllows(f.tier, nowMs - f.timestampNs / 1_000_000);
            && (r.Success? <==> sameKey && recent)
            && (r.Success? ==> r.value.nonce == f.nonce)
            && (r == Failure(BindingKeyMismatch) <==> !sameKey)
            && (r == Failure(SubmissionOutsideTolerance) <==> sameKey && !recent)
  {
    var sig := sign(SignedPart(f, commitment));
    var r := Record(f, commitment, sig);
    RecordFieldsAgree(f, commitment, sig, DeriveBindingKey(hmac, secret, BindingContext(r)));
    SignedBytesAgree(f, commitment, sig);
    ExtendedFrameRoundTrip(hmac, secret, r);
    assert s.verifySig(SignedPart(f, commitment), sig);
    WithinTolerance(f.tier, nowMs - f.timestampNs / 1_000_000);
  }

  // ---- The classes ----

  class MemoryNonceCache {
    var cache: Nonces
    const ttlMs: int

    constructor (ttlMs: int := 120_000)
      ensures cache == map[] && this.ttlMs == ttlMs
    {
      cache := map[];
      this.ttlMs := ttlMs;
    }

    method Has(nonce: Bytes, now: int) returns (found: bool)
      modifies this
      ensures found == HasNonce(old(cache), nonce, now) && cache == AfterHas(old(cache), nonce, now)
      ensures found <==> nonce in old(cache) && now <= old(cache)[nonce]
      ensures cache == if found then old(cache) else old(cache) - {nonce}
    {
      if nonce !in cache {
        return false;
      }
      if now > cache[nonce] {
        cache := cache - {nonce};
        return false;
      }
      return true;
    }

    method Add(nonce: Bytes, sweptAt: int, addedAt: int)
      modifies this
      ensures cache == AfterAdd(old(cache), nonce, ttlMs, sweptAt, addedAt)
      ensures nonce in cache && cache[nonce] == addedAt + ttlMs
      ensures |old(cache)| <= 10_000 ==> cache - {nonce} == old(cache) - {nonce}
      ensures |old(cache)| > 10_000 ==> forall n :: n != nonce ==>
        (n in cache <==> n in old(cache) && sweptAt <= old(cache)[n]) && (n in cache ==> cache[n] == old(cache)[n])
    {
      if |cache| > 10_000 {
        Sweep(sweptAt);
      }
      cache := cache[nonce := addedAt + ttlMs];
    }

    method Sweep(now: int)
      modifies this
      ensures cache == Swept(old(cache), now)
    {
      var todo := cache.Keys;
      while todo != {}
        invariant todo <= old(cache).Keys
        invariant cache == map n | n in old(cache) && (n in todo || now <= old(cache)[n]) :: old(cache)[n]
        decreases |todo|
      {
        var k :| k in todo;
        todo := todo - {k};
        if now > cache[k] {
          cache := cache - {k};
        }
      }
    }
  }

  class PotVerifier {
    const nonceCache: MemoryNonceCache

    /** The acceptances so far and the last time the verifier looked at the clock. */
    ghost var accepted: seq<(Bytes, int)>
    ghost var clock: int

    ghost function View(): State
      reads this, nonceCache
    {
      State(nonceCache.cache, accepted)
    }

    ghost predicate Valid()
      reads this, nonceCache
    {
      Refines(View(), nonceCache.ttlMs, clock) && AddedBefore(View(), clock)
    }

    constructor (nonceCache: MemoryNonceCache, ghost now: int)
      requires nonceCache.cache == map[]
      ensures Valid() && this.nonceCache == nonceCache && accepted == [] && clock == now
    {
      this.nonceCache := nonceCache;
      accepted, clock := [], now;
    }

    /** Accepts exactly the frames that pass the screen and whose nonce no acceptance in force has used, and then
        records the nonce; otherwise it names the first condition to fail and records nothing. */
    method Verify(c: Call) returns (r: Result<PotFrame, VerifyError>)
      requires Valid() && clock <= c.nowMs && Ordered(c)
      modifies this, nonceCache
      ensures Valid() && View() == Step(old(View()), c, nonceCache.ttlMs)
      ensures r == Outcome(old(nonceCache.cache), c)
      ensures r.Success? <==>
        && |c.frame| == 175 && c.frame[32] / 16 == 1 && KeyMatches(c.session, c.frame) && Signed(c.session, c.frame)
        && Recent(c.frame, c.nowMs) && !InForce(old(accepted), c.frame[47..79], nonceCache.ttlMs, c.hasAt)
      ensures r.Success? ==> ReadsFrame(r.value, c.frame) && accepted == old(accepted) + [(c.frame[47..79], c.addedAt)]
      ensures r.Failure? ==> View() == old(View())
      ensures r == Failure(FrameMalformed) <==> |c.frame| != 175
      ensures r == Failure(UnknownVersion) <==> |c.frame| == 175 && c.frame[32] / 16 != 1
      ensures r == Failure(BindingKeyMismatch) <==>
        |c.frame| == 175 && c.frame[32] / 16 == 1 && !KeyMatches(c.session, c.frame)
      ensures r == Failure(SignatureInvalid) <==>
        && |c.frame| == 175 && c.frame[32] / 16 == 1 && KeyMatches(c.session, c.frame)
        && !Signed(c.session, c.frame)
      ensures r == Failure(SubmissionOutsideTolerance) <==>
        && |c.frame| == 175 && c.frame[32] / 16 == 1 && KeyMatches(c.session, c.frame) && Signed(c.session, c.frame)
        && !Recent(c.frame, c.nowMs)
      ensures r == Failure(NonceReplay) <==>
        && |c.frame| == 175 && c.frame[32] / 16 == 1 && KeyMatches(c.session, c.frame) && Signed(c.session, c.frame)
        && Recent(c.frame, c.nowMs) && InForce(old(accepted), c.frame[47..79], nonceCache.ttlMs, c.hasAt)
    {
      ScreenMeans(c.session, c.frame, c.nowMs);
      var screened := Screen(c.session, c.frame, c.nowMs);
      if screened.Failure? {
        return screened;
      }
      ghost var before := View();
      var nonce := screened.value.nonce;
      var found := nonceCache.Has(nonce, c.hasAt);
      if found {
        return Failure(NonceReplay);
      }
      nonceCache.Add(nonce, c.sweptAt, c.addedAt);
      AddRefines(before, nonce, nonceCache.ttlMs, c.nowMs, c.hasAt, c.sweptAt, c.addedAt);
      accepted, clock := accepted + [(nonce, c.addedAt)], c.addedAt;
      return screened;
    }
  }
}
