/** Roughtime chains: src/roughtime/chain.rs, types.rs and the two clients that collect them. */
module RoughtimeChain {
  import opened Wrappers
  import opened ByteOrder
  import opened MerkleWalk
  import opened RoughtimeWire

  datatype Attestation = Attestation(serverPubkey: Bytes, serverName: string, midp: u64, radi: u32, sig: Bytes,
                                     root: Digest, nonce: Digest, blind: Digest, indx: u32, path: seq<Digest>,
                                     rawResponse: Bytes)

  datatype Chain = Chain(attestations: seq<Attestation>, digest: Digest)

  datatype ChainError =
    | TooShort(got: nat, min: nat)
    | NonceMismatch(at: nat)
    | OrderingViolated(at: nat)
    | SpreadExceeded(spreadSecs: nat)
    | DigestMismatch
    | TimestampDrift(diffSecs: nat)

  const CHAIN_SPREAD_TOLERANCE_SECS := 2
  const MIN_CHAIN_LEN := 3

  // ---- Saturating u64 arithmetic ----

  function SatSub(a: u64, b: nat): u64 {
    if a >= b then a - b else 0
  }

  function SatAdd(a: u64, b: nat): u64 {
    if a + b < TWO_64 then a + b else TWO_64 - 1
  }

  /** The interval an attestation vouches for. */
  function Earliest(a: Attestation): u64 {
    SatSub(a.midp, a.radi)
  }

  function Latest(a: Attestation): u64 {
    SatAdd(a.midp, a.radi)
  }

  // ---- The checks ----

  /** nonce_{i+1} = SHA-512(raw_response_i || blind_i), first 32 bytes. */
  function NextNonce(h: Hash, a: Attestation): Digest {
    h(a.rawResponse + a.blind)
  }

  function VerifyNonceChain(h: Hash, atts: seq<Attestation>, i: nat := 1): Result<(), ChainError>
    requires 1 <= i
    decreases |atts| - i
  {
    if i >= |atts| then Success(())
    else if atts[i].nonce != NextNonce(h, atts[i - 1]) then Failure(NonceMismatch(i))
    else VerifyNonceChain(h, atts, i + 1)
  }

  /** Only neighbours are compared. */
  function VerifyCausalOrdering(atts: seq<Attestation>, i: nat := 0): Result<(), ChainError>
    decreases |atts| - i
  {
    if i + 1 >= |atts| then Success(())
    else if Earliest(atts[i]) > Latest(atts[i + 1]) then Failure(OrderingViolated(i))
    else VerifyCausalOrdering(atts, i + 1)
  }

  function MinMidp(atts: seq<Attestation>): u64
    requires atts != []
  {
    if |atts| == 1 then atts[0].midp
    else
      var rest := MinMidp(atts[1..]);
      if atts[0].midp < rest then atts[0].midp else rest
  }

  function MaxMidp(atts: seq<Attestation>): u64
    requires atts != []
  {
    if |atts| == 1 then atts[0].midp
    else
      var rest := MaxMidp(atts[1..]);
      if atts[0].midp > rest then atts[0].midp else rest
  }

  function Spread(atts: seq<Attestation>): nat {
    if atts == [] then 0 else if MaxMidp(atts) >= MinMidp(atts) then MaxMidp(atts) - MinMidp(atts) else 0
  }

  function VerifySpread(atts: seq<Attestation>): Result<(), ChainError> {
    if Spread(atts) > CHAIN_SPREAD_TOLERANCE_SECS then Failure(SpreadExceeded(Spread(atts))) else Success(())
  }

  // ---- The digest ----

  function Entry(a: Attestation): Bytes {
    Be64(a.midp) + Be32(a.radi) + a.root + a.nonce
  }

  function Entries(atts: seq<Attestation>): Bytes {
    if atts == [] then [] else Entries(atts[..|atts| - 1]) + Entry(atts[|atts| - 1])
  }

  /** The bytes the digest is taken of; the length is cut to one byte. */
  function Transcript(atts: seq<Attestation>): Bytes {
    [|atts| % 0x100] + Entries(atts)
  }

  lemma Regroup(a: Bytes, b: Bytes, c: Bytes, d: Bytes, e: Bytes, f: Bytes)
    ensures a + b + c + d + e + f == a + (b + (c + d + e + f))
  {
  }

  lemma FeedEntry(head: Bytes, atts: seq<Attestation>, i: nat)
    requires i < |atts|
    ensures var a := atts[i];
            head + Entries(atts[..i]) + Be64(a.midp) + Be32(a.radi) + a.root + a.nonce == head + Entries(atts[..i + 1])
  {
    var a := atts[i];
    assert atts[..i + 1][..i] == atts[..i];
    Regroup(head, Entries(atts[..i]), Be64(a.midp), Be32(a.radi), a.root, a.nonce);
  }

  /** compute_chain_digest: the hasher is fed attestation by attestation. */
  method ComputeChainDigest(sha256: Hash, atts: seq<Attestation>) returns (digest: Digest)
    ensures digest == sha256(Transcript(atts))
  {
    var fed: Bytes := [|atts| % 0x100];
    for i := 0 to |atts|
      invariant fed == [|atts| % 0x100] + Entries(atts[..i])
    {
      FeedEntry([|atts| % 0x100], atts, i);
      fed := fed + Be64(atts[i].midp);
      fed := fed + Be32(atts[i].radi);
      fed := fed + atts[i].root;
      fed := fed + atts[i].nonce;
    }
    assert atts[..|atts|] == atts;
    return sha256(fed);
  }

  // ---- Building ----

  function Need(ok: bool, e: ChainError): Result<(), ChainError> {
    if ok then Success(()) else Failure(e)
  }

  function BuildChain(sha512: Hash, sha256: Hash, atts: seq<Attestation>): Result<Chain, ChainError> {
    var _ :- Need(|atts| >= MIN_CHAIN_LEN, TooShort(|atts|, MIN_CHAIN_LEN));
    var _ :- VerifyNonceChain(sha512, atts);
    var _ :- VerifyCausalOrdering(atts);
    var _ :- VerifySpread(atts);
    Success(Chain(atts, sha256(Transcript(atts))))
  }

  function BuildChainUnchecked(sha256: Hash, atts: seq<Attestation>): Result<Chain, ChainError> {
    var _ :- Need(|atts| >= MIN_CHAIN_LEN, TooShort(|atts|, MIN_CHAIN_LEN));
    var _ :- VerifyCausalOrdering(atts);
    var _ :- VerifySpread(atts);
    Success(Chain(atts, sha256(Transcript(atts))))
  }

  // ---- What the checks mean ----

  /** The nonce at k is derived from the reply before it. */
  predicate Follows(h: Hash, atts: seq<Attestation>, k: nat)
    requires 1 <= k < |atts|
  {
    atts[k].nonce == h(atts[k - 1].rawResponse + atts[k - 1].blind)
  }

  predicate Linked(h: Hash, atts: seq<Attestation>) {
    forall k :: 1 <= k < |atts| ==> Follows(h, atts, k)
  }

  /** The nonce check names the first place where the link is broken, and passes when there is none. */
  lemma {:induction false} NonceChainMeaning(h: Hash, atts: seq<Attestation>, i: nat)
    requires 1 <= i
    ensures VerifyNonceChain(h, atts, i).Success? <==> forall k :: i <= k < |atts| ==> Follows(h, atts, k)
    ensures forall k :: VerifyNonceChain(h, atts, i) == Failure(NonceMismatch(k)) <==> BrokenFirst(h, atts, i, k)
    ensures VerifyNonceChain(h, atts, i).Failure? ==> VerifyNonceChain(h, atts, i).error.NonceMismatch?
    decreases |atts| - i
  {
    if i < |atts| && Follows(h, atts, i) {
      NonceChainMeaning(h, atts, i + 1);
    }
  }

  predicate BrokenFirst(h: Hash, atts: seq<Attestation>, i: nat, k: nat)
    requires 1 <= i
  {
    i <= k < |atts| && !Follows(h, atts, k) && forall m :: i <= m < k ==> Follows(h, atts, m)
  }

  /** An attestation's interval begins no later than the other's ends; the saturation of the code's arithmetic makes no
      difference. */
  predicate Reaches(a: Attestation, b: Attestation) {
    a.midp - a.radi <= b.midp + b.radi
  }

  lemma ReachesExactly(a: Attestation, b: Attestation)
    ensures Reaches(a, b) <==> Earliest(a) <= Latest(b)
  {
  }

  /** The instants in an attestation's interval are those within its radius of its midpoint. */
  lemma IntervalMeans(a: Attestation, t: u64)
    ensures Earliest(a) <= t <= Latest(a) <==> a.midp - a.radi <= t <= a.midp + a.radi
  {
  }

  predicate DisorderAt(atts: seq<Attestation>, i: nat, k: nat) {
    && i <= k < |atts| - 1 && !Reaches(atts[k], atts[k + 1])
    && forall m :: i <= m < k ==> Reaches(atts[m], atts[m + 1])
  }

  /** The ordering check names the first attestation that begins after the next one ends, and passes when there is
      none. */
  lemma {:induction false} CausalMeaning(atts: seq<Attestation>, i: nat)
    ensures VerifyCausalOrdering(atts, i).Success? <==>
      forall k :: i <= k < |atts| - 1 ==> Reaches(atts[k], atts[k + 1])
    ensures forall k :: VerifyCausalOrdering(atts, i) == Failure(OrderingViolated(k)) <==> DisorderAt(atts, i, k)
    ensures VerifyCausalOrdering(atts, i).Failure? ==> VerifyCausalOrdering(atts, i).error.OrderingViolated?
    decreases |atts| - i
  {
    if i + 1 < |atts| {
      ReachesExactly(atts[i], atts[i + 1]);
      if Reaches(atts[i], atts[i + 1]) {
        CausalMeaning(atts, i + 1);
      }
    }
  }

  lemma {:induction false} MidpBounds(atts: seq<Attestation>)
    requires atts != []
    ensures forall i :: 0 <= i < |atts| ==> MinMidp(atts) <= atts[i].midp <= MaxMidp(atts)
    ensures exists i :: 0 <= i < |atts| && atts[i].midp == MinMidp(atts)
    ensures exists i :: 0 <= i < |atts| && atts[i].midp == MaxMidp(atts)
  {
    if |atts| == 1 {
      assert atts[0].midp == MinMidp(atts);
    } else {
      MidpBounds(atts[1..]);
      var i :| 0 <= i < |atts[1..]| && atts[1..][i].midp == MinMidp(atts[1..]);
      var j :| 0 <= j < |atts[1..]| && atts[1..][j].midp == MaxMidp(atts[1..]);
      assert atts[i + 1].midp == MinMidp(atts[1..]) && atts[j + 1].midp == MaxMidp(atts[1..]);
      assert atts[0].midp == MinMidp(atts) || atts[i + 1].midp == MinMidp(atts);
      assert atts[0].midp == MaxMidp(atts) || atts[j + 1].midp == MaxMidp(atts);
    }
  }

  /** The distance of the two midpoints furthest apart. */
  ghost predicate Widest(atts: seq<Attestation>, d: nat) {
    && (exists i, j :: 0 <= i < |atts| && 0 <= j < |atts| && atts[i].midp - atts[j].midp == d)
    && forall i, j :: 0 <= i < |atts| && 0 <= j < |atts| ==> atts[i].midp - atts[j].midp <= d
  }

  lemma SpreadIsWidest(atts: seq<Attestation>)
    requires atts != []
    ensures Widest(atts, Spread(atts))
  {
    MidpBounds(atts);
    var i :| 0 <= i < |atts| && atts[i].midp == MaxMidp(atts);
    var j :| 0 <= j < |atts| && atts[j].midp == MinMidp(atts);
    assert Spread(atts) == atts[i].midp - atts[j].midp;
  }

  lemma WidestIsOne(atts: seq<Attestation>, d: nat, e: nat)
    requires Widest(atts, d) && Widest(atts, e)
    ensures d == e
  {
    var i, j :| 0 <= i < |atts| && 0 <= j < |atts| && atts[i].midp - atts[j].midp == d;
    var k, l :| 0 <= k < |atts| && 0 <= l < |atts| && atts[k].midp - atts[l].midp == e;
  }

  predicate WithinTwo(atts: seq<Attestation>) {
    forall i, j :: 0 <= i < |atts| && 0 <= j < |atts| ==> atts[i].midp - atts[j].midp <= 2
  }

  /** verify_spread accepts exactly when every two midpoints are at most two seconds apart, and otherwise reports the
      greatest distance. */
  lemma SpreadMeaning(atts: seq<Attestation>)
    ensures VerifySpread(atts).Success? <==> WithinTwo(atts)
    ensures forall d {:trigger Widest(atts, d)} :: VerifySpread(atts) == Failure(SpreadExceeded(d)) <==>
      Widest(atts, d) && d > 2
    ensures VerifySpread(atts).Failure? ==> VerifySpread(atts).error.SpreadExceeded?
  {
    if atts != [] {
      SpreadIsWidest(atts);
      forall d | Widest(atts, d)
        ensures d == Spread(atts)
      {
        WidestIsOne(atts, d, Spread(atts));
      }
    }
  }

  predicate InOrder(atts: seq<Attestation>) {
    forall k :: 0 <= k < |atts| - 1 ==> Reaches(atts[k], atts[k + 1])
  }

  /** build_chain accepts exactly the lists of three and more that are linked, ordered and close together, and otherwise
      names the first of these that fails; the chain carries the digest of its own reports. */
  lemma BuildMeans(sha512: Hash, sha256: Hash, atts: seq<Attestation>)
    ensures var r := BuildChain(sha512, sha256, atts);
            && (r.Success? <==> |atts| >= 3 && Linked(sha512, atts) && InOrder(atts) && WithinTwo(atts))
            && (r.Success? ==> r.value == Chain(atts, sha256(Transcript(atts))))
            && (r.Failure? && r.error.TooShort? <==> |atts| < 3)
            && (r.Failure? && r.error.TooShort? ==> r.error == TooShort(|atts|, 3))
            && (forall k {:trigger BrokenFirst(sha512, atts, 1, k)} :: r == Failure(NonceMismatch(k)) <==>
                  |atts| >= 3 && BrokenFirst(sha512, atts, 1, k))
            && (forall k {:trigger DisorderAt(atts, 0, k)} :: r == Failure(OrderingViolated(k)) <==>
                  |atts| >= 3 && Linked(sha512, atts) && DisorderAt(atts, 0, k))
            && (forall d {:trigger Widest(atts, d)} :: r == Failure(SpreadExceeded(d)) <==>
                  |atts| >= 3 && Linked(sha512, atts) && InOrder(atts) && Widest(atts, d) && d > 2)
  {
    NonceChainMeaning(sha512, atts, 1);
    CausalMeaning(atts, 0);
    SpreadMeaning(atts);
  }

  /** build_chain_unchecked does the same without the link. */
  lemma BuildUncheckedMeans(sha256: Hash, atts: seq<Attestation>)
    ensures var r := BuildChainUnchecked(sha256, atts);
            && (r.Success? <==> |atts| >= 3 && InOrder(atts) && WithinTwo(atts))
            && (r.Success? ==> r.value == Chain(atts, sha256(Transcript(atts))))
            && (r.Failure? && r.error.TooShort? <==> |atts| < 3)
            && (r.Failure? && r.error.TooShort? ==> r.error == TooShort(|atts|, 3))
            && (forall k {:trigger DisorderAt(atts, 0, k)} :: r == Failure(OrderingViolated(k)) <==>
                  |atts| >= 3 && DisorderAt(atts, 0, k))
            && (forall d {:trigger Widest(atts, d)} :: r == Failure(SpreadExceeded(d)) <==>
                  |atts| >= 3 && InOrder(atts) && Widest(atts, d) && d > 2)
  {
    CausalMeaning(atts, 0);
    SpreadMeaning(atts);
  }

  /** The instant lies in every attestation's interval. */
  predicate InAll(atts: seq<Attestation>, t: int) {
    forall i :: 0 <= i < |atts| ==> Earliest(atts[i]) <= t <= Latest(atts[i])
  }

  /** No attestation's earliest instant is after another's latest, neighbours or not. */
  predicate AllOrdered(atts: seq<Attestation>) {
    forall i, j :: 0 <= i < |atts| && 0 <= j < |atts| ==> Earliest(atts[i]) <= Latest(atts[j])
  }

  lemma {:induction false} LatestStart(atts: seq<Attestation>) returns (m: nat)
    requires atts != []
    ensures m < |atts| && forall i :: 0 <= i < |atts| ==> Earliest(atts[i]) <= Earliest(atts[m])
  {
    if |atts| == 1 {
      return 0;
    }
    var k := LatestStart(atts[1..]);
    assert forall i :: 1 <= i < |atts| ==> atts[i] == atts[1..][i - 1];
    m := if Earliest(atts[0]) > Earliest(atts[k + 1]) then 0 else k + 1;
  }

  /** Intervals that meet in pairs have an instant in common. */
  lemma CommonInstant(atts: seq<Attestation>)
    requires atts != []
    ensures AllOrdered(atts) <==> exists t: int :: InAll(atts, t)
  {
    if AllOrdered(atts) {
      var m := LatestStart(atts);
      assert InAll(atts, Earliest(atts[m]));
    }
  }

  // ---- Which radii make a small spread enough ----

  /** The same attestations at other midpoints. */
  function Retimed(atts: seq<Attestation>, midps: seq<u64>): (r: seq<Attestation>)
    requires |midps| == |atts|
    ensures |r| == |atts|
  {
    seq(|atts|, i requires 0 <= i < |atts| => atts[i].(midp := midps[i]))
  }

  /** Whatever the midpoints, verify_spread makes verify_causal_ordering redundant. */
  ghost predicate SpreadOrders(atts: seq<Attestation>) {
    forall midps: seq<u64> :: |midps| == |atts| && VerifySpread(Retimed(atts, midps)).Success? ==>
      VerifyCausalOrdering(Retimed(atts, midps)).Success?
  }

  /** Whatever the midpoints, verify_spread puts one instant inside all intervals. */
  ghost predicate SpreadAgrees(atts: seq<Attestation>) {
    forall midps: seq<u64> :: |midps| == |atts| && VerifySpread(Retimed(atts, midps)).Success? ==>
      exists t: int :: InAll(Retimed(atts, midps), t)
  }

  predicate Wide(a: Attestation, b: Attestation) {
    a.radi + b.radi >= 2
  }

  predicate NeighboursWide(atts: seq<Attestation>) {
    forall k :: 0 <= k < |atts| - 1 ==> Wide(atts[k], atts[k + 1])
  }

  predicate PairsWide(atts: seq<Attestation>) {
    forall i, j :: 0 <= i < |atts| && 0 <= j < |atts| && i != j ==> Wide(atts[i], atts[j])
  }

  lemma WideIsOrdered(a: Attestation, b: Attestation)
    requires a.midp - b.midp <= 2 && Wide(a, b)
    ensures Earliest(a) <= Latest(b)
  {
  }

  lemma SpreadOrdersNeighbours(atts: seq<Attestation>)
    requires VerifySpread(atts).Success? && NeighboursWide(atts)
    ensures VerifyCausalOrdering(atts).Success?
  {
    SpreadMeaning(atts);
    CausalMeaning(atts, 0);
    forall k | 0 <= k < |atts| - 1
      ensures Earliest(atts[k]) <= Latest(atts[k + 1])
    {
      WideIsOrdered(atts[k], atts[k + 1]);
    }
  }

  lemma SpreadOrdersPairs(atts: seq<Attestation>)
    requires VerifySpread(atts).Success? && PairsWide(atts)
    ensures AllOrdered(atts)
  {
    SpreadMeaning(atts);
    forall i, j | 0 <= i < |atts| && 0 <= j < |atts|
      ensures Earliest(atts[i]) <= Latest(atts[j])
    {
      if i != j {
        WideIsOrdered(atts[i], atts[j]);
      }
    }
  }

  /** Attestation j two seconds before all others. */
  function OneEarly(n: nat, j: nat): (midps: seq<u64>)
    ensures |midps| == n
  {
    seq(n, i => if i == j then 10 else 12)
  }

  /** Two attestations whose radii sum to less than two: there are midpoints that pass verify_spread and leave one of
      the intervals after the other. */
  lemma NarrowPairSplits(atts: seq<Attestation>, i: nat, j: nat)
    requires i < |atts| && j < |atts| && i != j && !Wide(atts[i], atts[j])
    ensures var r := Retimed(atts, OneEarly(|atts|, j));
            VerifySpread(r).Success? && Earliest(r[i]) > Latest(r[j])
  {
    SpreadMeaning(Retimed(atts, OneEarly(|atts|, j)));
  }

  /** verify_spread implies verify_causal_ordering, at all midpoints, exactly when the radii of every two neighbours sum
      to at least two seconds. */
  lemma SpreadOrdersExactly(atts: seq<Attestation>)
    ensures SpreadOrders(atts) <==> NeighboursWide(atts)
  {
    if NeighboursWide(atts) {
      forall midps: seq<u64> | |midps| == |atts| && VerifySpread(Retimed(atts, midps)).Success?
        ensures VerifyCausalOrdering(Retimed(atts, midps)).Success?
      {
        SpreadOrdersNeighbours(Retimed(atts, midps));
      }
    } else {
      var k :| 0 <= k < |atts| - 1 && !Wide(atts[k], atts[k + 1]);
      NarrowPairSplits(atts, k, k + 1);
      CausalMeaning(Retimed(atts, OneEarly(|atts|, k + 1)), 0);
    }
  }

  /** verify_spread implies that all intervals share an instant, at all midpoints, exactly when every two radii sum to
      at least two seconds. */
  lemma SpreadAgreesExactly(atts: seq<Attestation>)
    requires atts != []
    ensures SpreadAgrees(atts) <==> PairsWide(atts)
  {
    if PairsWide(atts) {
      forall midps: seq<u64> | |midps| == |atts| && VerifySpread(Retimed(atts, midps)).Success?
        ensures exists t: int :: InAll(Retimed(atts, midps), t)
      {
        SpreadOrdersPairs(Retimed(atts, midps));
        CommonInstant(Retimed(atts, midps));
      }
    } else {
      var i, j :| 0 <= i < |atts| && 0 <= j < |atts| && i != j && !Wide(atts[i], atts[j]);
      NarrowPairSplits(atts, i, j);
      CommonInstant(Retimed(atts, OneEarly(|atts|, j)));
    }
  }

  /** So with every radius at least one second a chain within the spread is ordered in all pairs and agrees on an
      instant. */
  lemma SpreadImpliesAgreement(atts: seq<Attestation>)
    requires VerifySpread(atts).Success? && atts != []
    requires forall i :: 0 <= i < |atts| ==> atts[i].radi >= 1
    ensures VerifyCausalOrdering(atts).Success? && AllOrdered(atts)
    ensures exists t: int :: InAll(atts, t)
  {
    SpreadOrdersNeighbours(atts);
    SpreadOrdersPairs(atts);
    CommonInstant(atts);
  }

  // ---- The clients: one nonce threaded through servers that may fail ----

  /** One turn of a client's loop: the server as the attestation names it, its configured key decoded from hexadecimal,
      the fresh blind, and what came back: nothing, or the bytes of a packet. */
  datatype Turn = Turn(server: string, key: Option<Bytes>, blind: Digest, reply: Option<Bytes>)

  /** query_one_server of async_client.rs: a midpoint outside the delegation is refused, a key of the wrong length
      becomes zeros. */
  function QueryAsync(t: Turn, nonce: Digest): Option<Attestation> {
    var raw :- t.reply;
    var p :- ParseResponse(raw);
    if p.midp < p.mint || p.midp > p.maxt then None
    else
      var key :- t.key;
      var serverPubkey := if |key| == 32 then key else Zeros(32);
      Some(Attestation(serverPubkey, t.server, p.midp, p.radi, p.sig, p.root, nonce, t.blind, p.indx, p.path, raw))
  }

  /** query_server of client.rs: the delegation window is not looked at. */
  function QuerySync(t: Turn, key: Bytes, nonce: Digest): Option<Attestation> {
    var raw :- t.reply;
    var p :- ParseResponse(raw);
    Some(Attestation(key, t.server, p.midp, p.radi, p.sig, p.root, nonce, t.blind, p.indx, p.path, raw))
  }

  datatype Client = AsyncClient | SyncClient

  /** What a turn adds to the chain; the synchronous client skips a server whose key is not 32 bytes. */
  function Query(client: Client, t: Turn, nonce: Digest): Option<Attestation> {
    match client
    case AsyncClient => QueryAsync(t, nonce)
    case SyncClient => if t.key.Some? && |t.key.value| == 32 then QuerySync(t, t.key.value, nonce) else None
  }

  function NonceAfter(h: Hash, seed: Digest, atts: seq<Attestation>): Digest {
    if atts == [] then seed else NextNonce(h, atts[|atts| - 1])
  }

  /** The attestations a loop over these turns collects. */
  function Collected(client: Client, h: Hash, seed: Digest, turns: seq<Turn>): seq<Attestation> {
    if turns == [] then []
    else
      var m := |turns| - 1;
      var before := Collected(client, h, seed, turns[..m]);
      match Query(client, turns[m], NonceAfter(h, seed, before))
      case Some(att) => before + [att]
      case None => before
  }

  /** A turn whose reply the client can use. */
  predicate Usable(client: Client, t: Turn) {
    && t.key.Some? && t.reply.Some? && ParseResponse(t.reply.value).Some?
    && match client
       case AsyncClient => var p := ParseResponse(t.reply.value).value; p.mint <= p.midp <= p.maxt
       case SyncClient => |t.key.value| == 32
  }

  function UsableTurns(client: Client, turns: seq<Turn>): seq<Turn> {
    if turns == [] then []
    else
      var m := |turns| - 1;
      UsableTurns(client, turns[..m]) + (if Usable(client, turns[m]) then [turns[m]] else [])
  }

  /** The attestation records this turn's server, key, blind and reply, and what the reply says. */
  predicate Records(a: Attestation, t: Turn) {
    && a.serverName == t.server && a.blind == t.blind && t.reply == Some(a.rawResponse)
    && t.key.Some? && a.serverPubkey == (if |t.key.value| == 32 then t.key.value else seq(32, _ => 0))
    && match ParseResponse(a.rawResponse)
       case Some(p) =>
         && a.midp == p.midp && a.radi == p.radi && a.root == p.root && a.sig == p.sig && a.indx == p.indx
         && a.path == p.path
       case None => false
  }

  predicate AllRecord(atts: seq<Attestation>, turns: seq<Turn>) {
    |atts| == |turns| && forall k :: 0 <= k < |atts| ==> Records(atts[k], turns[k])
  }

  lemma AsyncRecords(t: Turn, nonce: Digest)
    ensures QueryAsync(t, nonce).Some? <==> Usable(AsyncClient, t)
    ensures QueryAsync(t, nonce).Some? ==> QueryAsync(t, nonce).value.nonce == nonce
    ensures QueryAsync(t, nonce).Some? ==> Records(QueryAsync(t, nonce).value, t)
  {
  }

  lemma SyncRecords(t: Turn, nonce: Digest)
    ensures Query(SyncClient, t, nonce).Some? <==> Usable(SyncClient, t)
    ensures Query(SyncClient, t, nonce).Some? ==> Query(SyncClient, t, nonce).value.nonce == nonce
    ensures Query(SyncClient, t, nonce).Some? ==> Records(Query(SyncClient, t, nonce).value, t)
  {
  }

  lemma QueryRecords(client: Client, t: Turn, nonce: Digest)
    ensures Query(client, t, nonce).Some? <==> Usable(client, t)
    ensures Query(client, t, nonce).Some? ==> var a := Query(client, t, nonce).value; a.nonce == nonce && Records(a, t)
  {
    match client
    case AsyncClient => AsyncRecords(t, nonce);
    case SyncClient => SyncRecords(t, nonce);
  }

  lemma {:induction false} CollectedIsLinked(client: Client, h: Hash, seed: Digest, turns: seq<Turn>)
    ensures var atts := Collected(client, h, seed, turns); Linked(h, atts) && (atts != [] ==> atts[0].nonce == seed)
  {
    if turns != [] {
      var m := |turns| - 1;
      CollectedIsLinked(client, h, seed, turns[..m]);
      var before := Collected(client, h, seed, turns[..m]);
      var nonce := NonceAfter(h, seed, before);
      QueryRecords(client, turns[m], nonce);
      if Usable(client, turns[m]) {
        LinkedAppend(h, before, Query(client, turns[m], nonce).value);
      }
    }
  }

  lemma {:induction false} CollectedRecords(client: Client, h: Hash, seed: Digest, turns: seq<Turn>)
    ensures AllRecord(Collected(client, h, seed, turns), UsableTurns(client, turns))
  {
    if turns != [] {
      var m := |turns| - 1;
      CollectedRecords(client, h, seed, turns[..m]);
      QueryRecords(client, turns[m], NonceAfter(h, seed, Collected(client, h, seed, turns[..m])));
    }
  }

  /** Whatever servers fail, the collected list holds every usable reply once, in order, on one unbroken chain of nonces
      from the seed. */
  lemma CollectedIsChained(client: Client, h: Hash, seed: Digest, turns: seq<Turn>)
    ensures var atts := Collected(client, h, seed, turns);
            Linked(h, atts) && (atts != [] ==> atts[0].nonce == seed) && AllRecord(atts, UsableTurns(client, turns))
  {
    CollectedIsLinked(client, h, seed, turns);
    CollectedRecords(client, h, seed, turns);
  }

  datatype ClientError = InsufficientServers(got: nat, needed: nat) | ChainBuildFailed(error: ChainError)

  function MapError(r: Result<Chain, ChainError>): Result<Chain, ClientError> {
    match r
    case Success(c) => Success(c)
    case Failure(e) => Failure(ChainBuildFailed(e))
  }

  lemma LinkedAppend(h: Hash, atts: seq<Attestation>, a: Attestation)
    requires Linked(h, atts) && (atts != [] ==> a.nonce == NextNonce(h, atts[|atts| - 1]))
    ensures Linked(h, atts + [a])
  {
    forall k | 1 <= k < |atts|
      ensures Follows(h, atts + [a], k)
    {
      assert Follows(h, atts, k);
    }
  }

  /** On linked attestations the nonce check can be left out: the result, errors included, is the same. */
  lemma UncheckedIsEnough(sha512: Hash, sha256: Hash, atts: seq<Attestation>)
    requires Linked(sha512, atts)
    ensures BuildChainUnchecked(sha256, atts) == BuildChain(sha512, sha256, atts)
  {
    NonceChainMeaning(sha512, atts, 1);
  }

  /** What a client makes of its turns: the checked chain over the usable replies, if there are enough of them. */
  function ClientResult(client: Client, sha512: Hash, sha256: Hash, needed: nat, seed: Digest,
      turns: seq<Turn>): Result<Chain, ClientError> {
    var atts := Collected(client, sha512, seed, turns);
    IfEnough(|atts|, needed, BuildChain(sha512, sha256, atts))
  }

  function IfEnough(got: nat, needed: nat, built: Result<Chain, ChainError>): Result<Chain, ClientError> {
    if got < needed then Failure(InsufficientServers(got, needed)) else MapError(built)
  }

  lemma IfEnoughMeaning(got: nat, needed: nat, built: Result<Chain, ChainError>)
    requires built.Failure? ==> !built.error.NonceMismatch?
    ensures var r := IfEnough(got, needed, built);
            && (r.Success? <==> got >= needed && built.Success?)
            && (r.Success? ==> built == Success(r.value))
            && (r.Failure? && r.error.ChainBuildFailed? ==> !r.error.error.NonceMismatch?)
            && (r.Failure? && r.error.InsufficientServers? <==> got < needed)
  {
  }

  /** A chain a client returns holds every usable reply once, in order and nonce-linked from the seed; there is one
      exactly when enough replies are usable and what they say is ordered and close together. A client never reports a
      nonce mismatch, and reports too few servers exactly when too few replies were usable. */
  lemma ClientResultIsChained(client: Client, sha512: Hash, sha256: Hash, needed: nat, seed: Digest, turns: seq<Turn>)
    ensures var r, usable := ClientResult(client, sha512, sha256, needed, seed, turns), UsableTurns(client, turns);
            var atts := Collected(client, sha512, seed, turns);
            && (r.Success? <==> |usable| >= needed && |usable| >= 3 && InOrder(atts) && WithinTwo(atts))
            && (r.Success? ==> r.value == Chain(atts, sha256(Transcript(atts))))
            && AllRecord(atts, usable) && Linked(sha512, atts) && (atts != [] ==> atts[0].nonce == seed)
            && (r.Failure? && r.error.ChainBuildFailed? ==> !r.error.error.NonceMismatch?)
            && (r.Failure? && r.error.InsufficientServers? <==> |usable| < needed)
  {
    CollectedIsLinked(client, sha512, seed, turns);
    CollectedRecords(client, sha512, seed, turns);
    var atts := Collected(client, sha512, seed, turns);
    NoNonceMismatch(sha512, sha256, atts);
    BuildMeans(sha512, sha256, atts);
    IfEnoughMeaning(|atts|, needed, BuildChain(sha512, sha256, atts));
  }

  lemma CollectedStep(client: Client, h: Hash, seed: Digest, turns: seq<Turn>, i: nat)
    requires i < |turns|
    ensures var before := Collected(client, h, seed, turns[..i]);
            var att := Query(client, turns[i], NonceAfter(h, seed, before));
            Collected(client, h, seed, turns[..i + 1]) == if att.Some? then before + [att.value] else before
  {
    assert turns[..i + 1][..i] == turns[..i];
  }

  /** build_roughtime_chain_async: although it calls the unchecked builder, its result is that of the checked one. */
  method BuildRoughtimeChainAsync(sha512: Hash, sha256: Hash, seed: Digest, turns: seq<Turn>)
      returns (r: Result<Chain, ClientError>)
    ensures r == ClientResult(AsyncClient, sha512, sha256, 3, seed, turns)
  {
    var attestations: seq<Attestation> := [];
    var currentNonce := seed;
    for i := 0 to |turns|
      invariant attestations == Collected(AsyncClient, sha512, seed, turns[..i])
      invariant currentNonce == NonceAfter(sha512, seed, attestations)
    {
      CollectedStep(AsyncClient, sha512, seed, turns, i);
      var att := QueryAsync(turns[i], currentNonce);
      if att.Some? {
        currentNonce := NextNonce(sha512, att.value);
        attestations := attestations + [att.value];
      }
    }
    assert turns[..|turns|] == turns;
    CollectedIsLinked(AsyncClient, sha512, seed, turns);
    UncheckedIsEnough(sha512, sha256, attestations);
    if |attestations| < 3 {
      return Failure(InsufficientServers(|attestations|, 3));
    }
    return MapError(BuildChainUnchecked(sha256, attestations));
  }

  /** build_roughtime_chain of client.rs, with the nonce derivation written out in the loop. */
  method BuildRoughtimeChain(sha512: Hash, sha256: Hash, minK: nat, seed: Digest, turns: seq<Turn>)
      returns (r: Result<Chain, ClientError>)
    ensures r == ClientResult(SyncClient, sha512, sha256, minK, seed, turns)
  {
    var attestations: seq<Attestation> := [];
    var nonce := seed;
    for i := 0 to |turns|
      invariant attestations == Collected(SyncClient, sha512, seed, turns[..i])
      invariant nonce == NonceAfter(sha512, seed, attestations)
    {
      CollectedStep(SyncClient, sha512, seed, turns, i);
      var key := turns[i].key;
      if key.None? || |key.value| != 32 {
        continue;
      }
      var att := QuerySync(turns[i], key.value, nonce);
      if att.Some? {
        nonce := sha512(att.value.rawResponse + att.value.blind);
        attestations := attestations + [att.value];
      }
    }
    assert turns[..|turns|] == turns;
    if |attestations| < minK {
      return Failure(InsufficientServers(|attestations|, minK));
    }
    return MapError(BuildChain(sha512, sha256, attestations));
  }

  lemma NoNonceMismatch(sha512: Hash, sha256: Hash, atts: seq<Attestation>)
    requires Linked(sha512, atts)
    ensures BuildChain(sha512, sha256, atts).Failure? ==> !BuildChain(sha512, sha256, atts).error.NonceMismatch?
  {
    NonceChainMeaning(sha512, atts, 1);
    CausalMeaning(atts, 0);
  }
}
