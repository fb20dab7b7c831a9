/** A Roughtime server that follows section 5 of draft-ietf-ntp-roughtime, and what the client makes of its replies. */
module HonestServer {
  import opened Wrappers
  import opened ByteOrder
  import opened Tlv
  import opened MerkleWalk
  import opened RoughtimeValidation

  type Signature = b: Bytes | |b| == 64 witness seq(64, _ => 0)

  datatype Server = Server(longTermKey: Bytes, signLongTerm: Bytes -> Signature,
                           delegatedKey: Bytes, signDelegated: Bytes -> Signature,
                           mint: u64, maxt: u64, midp: u64, radi: u32)

  /** Both keys load, what they sign verifies, and the clock is inside the delegation. */
  ghost predicate Honest(c: Crypto, s: Server) {
    && Loads(c, s.longTermKey) && Loads(c, s.delegatedKey)
    && (forall m {:trigger s.signLongTerm(m)} :: c.verify(s.longTermKey, m, s.signLongTerm(m)))
    && (forall m {:trigger s.signDelegated(m)} :: c.verify(s.delegatedKey, m, s.signDelegated(m)))
    && s.mint <= s.midp <= s.maxt
  }

  /** The list gives the tag this value; among repetitions the last counts. */
  ghost predicate Lists(fields: seq<Field>, tag: u32, value: Bytes) {
    exists i :: 0 <= i < |fields| && fields[i] == Field(tag, value)
        && forall j :: i < j < |fields| ==> fields[j].tag != tag
  }

  lemma ListedIsCarried(fields: seq<Field>, tag: u32, value: Bytes)
    requires Fits(fields) && Lists(fields, tag, value)
    ensures Carries(Encode(fields), tag, value)
  {
    var i :| 0 <= i < |fields| && fields[i] == Field(tag, value)
        && forall j :: i < j < |fields| ==> fields[j].tag != tag;
    ParseEncode(fields);
    ToMapLookup(fields, i);
  }

  /** The four nested messages of a reply, each a list of fields in any order, with any further fields. */
  datatype Reply = Reply(top: seq<Field>, cert: seq<Field>, dele: seq<Field>, srep: seq<Field>)

  predicate Encodable(r: Reply) {
    Fits(r.top) && Fits(r.cert) && Fits(r.dele) && Fits(r.srep) && |Encode(r.top)| < TWO_32
  }

  ghost predicate DelegationAssembled(s: Server, r: Reply) {
    && Lists(r.dele, PUBK, s.delegatedKey) && Lists(r.dele, MINT, Le64(s.mint)) && Lists(r.dele, MAXT, Le64(s.maxt))
    && Lists(r.cert, DELE, Encode(r.dele)) && Lists(r.cert, SIG, s.signLongTerm(DELE_CONTEXT + Encode(r.dele)))
  }

  ghost predicate ReportAssembled(c: Crypto, s: Server, requests: seq<Bytes>, depth: nat, r: Reply)
    requires |requests| == Pow2(depth)
  {
    Lists(r.srep, RADI, Le32(s.radi)) && Lists(r.srep, MIDP, Le64(s.midp))
    && Lists(r.srep, ROOT, Root(c.hash, Leaves(c.hash, requests), depth))
  }

  ghost predicate TopAssembled(c: Crypto, s: Server, requests: seq<Bytes>, depth: nat, i: nat, nonce: Bytes, r: Reply)
    requires i < |requests| == Pow2(depth)
  {
    && Lists(r.top, NONC, nonce) && Lists(r.top, TYPE, Le32(1))
    && Lists(r.top, SIG, s.signDelegated(SREP_CONTEXT + Encode(r.srep)))
    && Lists(r.top, PATH, Join(PathFor(c.hash, Leaves(c.hash, requests), depth, i)))
    && Lists(r.top, SREP, Encode(r.srep)) && Lists(r.top, CERT, Encode(r.cert)) && Lists(r.top, INDX, Le32(i))
  }

  /** The evidence the reply to request i carries. */
  function Proof(c: Crypto, s: Server, requests: seq<Bytes>, depth: nat, i: nat, r: Reply): Evidence
    requires i < |requests| == Pow2(depth) && i < TWO_32
  {
    Evidence(s.signDelegated(SREP_CONTEXT + Encode(r.srep)), Join(PathFor(c.hash, Leaves(c.hash, requests), depth, i)),
             Encode(r.srep), i, s.signLongTerm(DELE_CONTEXT + Encode(r.dele)), Encode(r.dele), s.delegatedKey, s.mint,
                 s.maxt,
             s.midp, s.radi, Root(c.hash, Leaves(c.hash, requests), depth))
  }

  lemma DelegationHeld(c: Crypto, s: Server, requests: seq<Bytes>, depth: nat, i: nat, r: Reply)
    requires i < |requests| == Pow2(depth) && i < TWO_32
    requires Fits(r.cert) && Fits(r.dele) && DelegationAssembled(s, r)
    ensures HoldsDelegation(Encode(r.cert), Proof(c, s, requests, depth, i, r))
  {
    ListedIsCarried(r.cert, SIG, s.signLongTerm(DELE_CONTEXT + Encode(r.dele)));
    ListedIsCarried(r.cert, DELE, Encode(r.dele));
    ListedIsCarried(r.dele, PUBK, s.delegatedKey);
    ListedIsCarried(r.dele, MINT, Le64(s.mint));
    ListedIsCarried(r.dele, MAXT, Le64(s.maxt));
  }

  lemma ReportHeld(c: Crypto, s: Server, requests: seq<Bytes>, depth: nat, i: nat, r: Reply)
    requires i < |requests| == Pow2(depth) && i < TWO_32
    requires Fits(r.srep) && ReportAssembled(c, s, requests, depth, r)
    ensures HoldsReport(Proof(c, s, requests, depth, i, r))
  {
    ListedIsCarried(r.srep, RADI, Le32(s.radi));
    ListedIsCarried(r.srep, MIDP, Le64(s.midp));
    ListedIsCarried(r.srep, ROOT, Root(c.hash, Leaves(c.hash, requests), depth));
  }

  lemma ProofHeld(c: Crypto, s: Server, requests: seq<Bytes>, depth: nat, i: nat, nonce: Bytes, r: Reply)
    requires i < |requests| == Pow2(depth) && i < TWO_32 && Encodable(r)
    requires DelegationAssembled(s, r) && ReportAssembled(c, s, requests, depth, r)
      && TopAssembled(c, s, requests, depth, i, nonce, r)
    ensures Holds(Encode(r.top), nonce, Proof(c, s, requests, depth, i, r))
  {
    DelegationHeld(c, s, requests, depth, i, r);
    ReportHeld(c, s, requests, depth, i, r);
    ListedIsCarried(r.top, NONC, nonce);
    ListedIsCarried(r.top, TYPE, Le32(1));
    ListedIsCarried(r.top, SIG, s.signDelegated(SREP_CONTEXT + Encode(r.srep)));
    ListedIsCarried(r.top, PATH, Join(PathFor(c.hash, Leaves(c.hash, requests), depth, i)));
    ListedIsCarried(r.top, SREP, Encode(r.srep));
    ListedIsCarried(r.top, CERT, Encode(r.cert));
    ListedIsCarried(r.top, INDX, Le32(i));
  }

  /** The tree part of the endorsement: the server's path leads from the request to its root. */
  lemma RequestIncluded(c: Crypto, requests: seq<Bytes>, depth: nat, i: nat)
    requires i < |requests| == Pow2(depth) && i < TWO_32
    requires i < TWO_32 / 2 || depth <= 32
    ensures Climb(c.hash, Leaf(c.hash, requests[i]), i,
      Nodes(Join(PathFor(c.hash, Leaves(c.hash, requests), depth, i))))
         == Root(c.hash, Leaves(c.hash, requests), depth)
    ensures Root(c.hash, Leaves(c.hash, requests), depth) == TreeHash(c.hash, requests, depth)
  {
    RootIsTreeHash(c.hash, requests, depth);
    NodesOfJoin(PathFor(c.hash, Leaves(c.hash, requests), depth, i));
    PathReachesRoot(c.hash, Leaves(c.hash, requests), depth, i);
  }

  lemma ProofEndorses(c: Crypto, s: Server, requests: seq<Bytes>, depth: nat, i: nat, r: Reply)
    requires Honest(c, s) && i < |requests| == Pow2(depth) && i < TWO_32 / 2
    ensures Endorses(c, s.longTermKey, requests[i], Proof(c, s, requests, depth, i, r))
  {
    RequestIncluded(c, requests, depth, i);
    var deleSigned, srepSigned := DELE_CONTEXT + Encode(r.dele), SREP_CONTEXT + Encode(r.srep);
    assert c.verify(s.longTermKey, deleSigned, s.signLongTerm(deleSigned));
    assert c.verify(s.delegatedKey, srepSigned, s.signDelegated(srepSigned));
    assert |Join(PathFor(c.hash, Leaves(c.hash, requests), depth, i))| / 32 == depth;
  }

  lemma HighIndexRefused(c: Crypto, key: Bytes, request: Bytes, nonce: Bytes, packet: Bytes, e: Evidence)
    requires |packet| >= 12 && Holds(Message(packet), nonce, e) && e.indx >= TWO_32 / 2
    ensures Validate(c, request, packet, key, nonce).Failure?
  {
    if Validate(c, request, packet, key, nonce).Success? {
      var e' := AcceptanceIsEndorsed(c, request, packet, key, nonce);
      SameIndex(Message(packet), nonce, e, e');
    }
  }

  lemma SameIndex(msg: Bytes, nonce: Bytes, e: Evidence, e': Evidence)
    requires Holds(msg, nonce, e) && Holds(msg, nonce, e')
    ensures e.indx == e'.indx
  {
    assert Carries32(msg, INDX, e.indx) && Carries32(msg, INDX, e'.indx);
  }

  /** Completeness: an honest server's reply to request i of a batch of 2^depth is accepted by the client that sent it,
      with exactly the server's midpoint and radius, if and only if i is below 2^31; the client's signed shift refuses
      the upper half of a larger batch. */
  lemma HonestReplyAccepted(c: Crypto, s: Server, requests: seq<Bytes>, depth: nat, i: nat, nonce: Bytes, r: Reply,
      tail: Bytes)
    requires Honest(c, s) && i < |requests| == Pow2(depth) && i < TWO_32 && Encodable(r)
    requires DelegationAssembled(s, r) && ReportAssembled(c, s, requests, depth, r)
      && TopAssembled(c, s, requests, depth, i, nonce, r)
    ensures i < TWO_32 / 2 ==>
              Validate(c, requests[i], Packet(Encode(r.top)) + tail, s.longTermKey, nonce)
              == Success(Validated(s.midp, s.radi))
    ensures i >= TWO_32 / 2 ==> Validate(c, requests[i], Packet(Encode(r.top)) + tail, s.longTermKey, nonce).Failure?
  {
    var packet := Packet(Encode(r.top)) + tail;
    MessageOfPacket(Encode(r.top), tail);
    ProofHeld(c, s, requests, depth, i, nonce, r);
    HeldProofDecides(c, s, requests, depth, i, nonce, r, packet);
  }

  lemma HeldProofDecides(c: Crypto, s: Server, requests: seq<Bytes>, depth: nat, i: nat, nonce: Bytes, r: Reply,
      packet: Bytes)
    requires Honest(c, s) && i < |requests| == Pow2(depth) && i < TWO_32
    requires |packet| >= 12 && Holds(Message(packet), nonce, Proof(c, s, requests, depth, i, r))
    ensures i < TWO_32 / 2 ==>
              Validate(c, requests[i], packet, s.longTermKey, nonce) == Success(Validated(s.midp, s.radi))
    ensures i >= TWO_32 / 2 ==> Validate(c, requests[i], packet, s.longTermKey, nonce).Failure?
  {
    if i < TWO_32 / 2 {
      ProofEndorses(c, s, requests, depth, i, r);
      EndorsedIsAccepted(c, requests[i], packet, s.longTermKey, nonce, Proof(c, s, requests, depth, i, r));
    } else {
      HighIndexRefused(c, s.longTermKey, requests[i], nonce, packet, Proof(c, s, requests, depth, i, r));
    }
  }

  // ---- The reply with the fields section 5 asks for and no others ----

  function PlainDele(s: Server): seq<Field> {
    [Field(PUBK, s.delegatedKey), Field(MINT, Le64(s.mint)), Field(MAXT, Le64(s.maxt))]
  }

  function PlainCert(s: Server): seq<Field> {
    [Field(SIG, s.signLongTerm(DELE_CONTEXT + Encode(PlainDele(s)))), Field(DELE, Encode(PlainDele(s)))]
  }

  function PlainReport(s: Server, root: Digest): seq<Field> {
    [Field(RADI, Le32(s.radi)), Field(MIDP, Le64(s.midp)), Field(ROOT, root)]
  }

  function TopFields(sig: Bytes, nonce: Bytes, typ: Bytes, path: Bytes, srep: Bytes, cert: Bytes,
      indx: Bytes): seq<Field> {
    [Field(SIG, sig), Field(NONC, nonce), Field(TYPE, typ), Field(PATH, path), Field(SREP, srep), Field(CERT, cert),
        Field(INDX, indx)]
  }

  function PlainTop(s: Server, root: Digest, path: seq<Digest>, i: nat, nonce: Bytes): seq<Field> {
    var srep := Encode(PlainReport(s, root));
    TopFields(s.signDelegated(SREP_CONTEXT + srep), nonce, Le32(1), Join(path), srep, Encode(PlainCert(s)), Le32(i))
  }

  function PlainReply(c: Crypto, s: Server, requests: seq<Bytes>, depth: nat, i: nat, nonce: Bytes): Reply
    requires i < |requests| == Pow2(depth)
  {
    var leaves := Leaves(c.hash, requests);
    var root := Root(c.hash, leaves, depth);
    Reply(PlainTop(s, root, PathFor(c.hash, leaves, depth, i), i, nonce), PlainCert(s), PlainDele(s),
        PlainReport(s, root))
  }

  lemma {:induction false} SmallValues(fields: seq<Field>, bound: nat, n: nat)
    requires n <= |fields| <= 8
    requires forall k :: 0 <= k < |fields| ==> |fields[k].value| <= bound
    ensures Offset(fields, n) <= 8 * bound - (8 - n) * bound
  {
    if n > 0 {
      SmallValues(fields, bound, n - 1);
    }
  }

  lemma SmallOffset(fields: seq<Field>, bound: nat, n: nat)
    requires n <= |fields| <= 8
    requires forall k :: 0 <= k < |fields| ==> |fields[k].value| <= bound
    ensures Offset(fields, n) <= 8 * bound
  {
    SmallValues(fields, bound, n);
    assert (8 - n) * bound >= 0;
  }

  lemma SmallMessage(fields: seq<Field>, bound: nat)
    requires 0 < |fields| <= 8 && bound <= 0x1_0000
    requires forall k :: 0 <= k < |fields| ==> |fields[k].value| <= bound
    ensures Fits(fields) && |Encode(fields)| <= 64 + 8 * bound
  {
    SmallOffset(fields, bound, |fields| - 1);
    SmallOffset(fields, bound, |fields|);
    EncodedLength(fields);
  }

  lemma Listed(fields: seq<Field>, i: nat)
    requires i < |fields|
    requires forall j :: i < j < |fields| ==> fields[j].tag != fields[i].tag
    ensures Lists(fields, fields[i].tag, fields[i].value)
  {
  }

  lemma DelePlain(s: Server)
    ensures Lists(PlainDele(s), PUBK, s.delegatedKey) && Lists(PlainDele(s), MINT, Le64(s.mint))
      && Lists(PlainDele(s), MAXT, Le64(s.maxt))
    ensures |s.delegatedKey| == 32 ==> Fits(PlainDele(s)) && |Encode(PlainDele(s))| <= 320
  {
    Listed(PlainDele(s), 0); Listed(PlainDele(s), 1); Listed(PlainDele(s), 2);
    if |s.delegatedKey| == 32 {
      SmallMessage(PlainDele(s), 32);
    }
  }

  lemma CertPlain(s: Server)
    ensures DelegationAssembled(s, Reply([], PlainCert(s), PlainDele(s), []))
    ensures |s.delegatedKey| == 32 ==> Fits(PlainCert(s)) && |Encode(PlainCert(s))| <= 2624
  {
    DelePlain(s);
    Listed(PlainCert(s), 0); Listed(PlainCert(s), 1);
    if |s.delegatedKey| == 32 {
      SmallMessage(PlainCert(s), 320);
    }
  }

  lemma ReportPlain(s: Server, root: Digest)
    ensures Lists(PlainReport(s, root), RADI, Le32(s.radi)) && Lists(PlainReport(s, root), MIDP, Le64(s.midp))
      && Lists(PlainReport(s, root), ROOT, root)
    ensures Fits(PlainReport(s, root)) && |Encode(PlainReport(s, root))| <= 320
  {
    Listed(PlainReport(s, root), 0); Listed(PlainReport(s, root), 1); Listed(PlainReport(s, root), 2);
    SmallMessage(PlainReport(s, root), 32);
  }

  lemma TopListed(sig: Bytes, nonce: Bytes, typ: Bytes, path: Bytes, srep: Bytes, cert: Bytes, indx: Bytes)
    ensures var top := TopFields(sig, nonce, typ, path, srep, cert, indx);
            && Lists(top, SIG, sig) && Lists(top, NONC, nonce) && Lists(top, TYPE, typ) && Lists(top, PATH, path)
            && Lists(top, SREP, srep) && Lists(top, CERT, cert) && Lists(top, INDX, indx)
  {
    var top := TopFields(sig, nonce, typ, path, srep, cert, indx);
    Listed(top, 0); Listed(top, 1); Listed(top, 2); Listed(top, 3); Listed(top, 4); Listed(top, 5); Listed(top, 6);
  }

  lemma TopPlainFits(s: Server, root: Digest, path: seq<Digest>, i: nat, nonce: Bytes)
    requires |s.delegatedKey| == 32 && |path| <= 31 && |nonce| == 32
    ensures Fits(PlainTop(s, root, path, i, nonce)) && |Encode(PlainTop(s, root, path, i, nonce))| < TWO_32
  {
    CertPlain(s);
    ReportPlain(s, root);
    SmallMessage(PlainTop(s, root, path, i, nonce), 2624);
  }

  lemma PlainReplyAssembled(c: Crypto, s: Server, requests: seq<Bytes>, depth: nat, i: nat, nonce: Bytes)
    requires |s.delegatedKey| == 32 && i < |requests| == Pow2(depth) && depth <= 31 && |nonce| == 32
    ensures i < TWO_32 / 2
    ensures var r := PlainReply(c, s, requests, depth, i, nonce);
            && Encodable(r) && DelegationAssembled(s, r) && ReportAssembled(c, s, requests, depth, r)
            && TopAssembled(c, s, requests, depth, i, nonce, r)
  {
    Pow2Of31();
    Pow2Monotone(depth, 31);
    var leaves := Leaves(c.hash, requests);
    var root, path := Root(c.hash, leaves, depth), PathFor(c.hash, leaves, depth, i);
    DelePlain(s);
    CertPlain(s);
    ReportPlain(s, root);
    var srep := Encode(PlainReport(s, root));
    TopListed(s.signDelegated(SREP_CONTEXT + srep), nonce, Le32(1), Join(path), srep, Encode(PlainCert(s)), Le32(i));
    TopPlainFits(s, root, path, i, nonce);
  }

  /** The plain reply meets every condition above, so each client of a batch of up to 2^31 requests accepts its own. */
  lemma PlainReplyAccepted(c: Crypto, s: Server, requests: seq<Bytes>, depth: nat, i: nat, nonce: Bytes)
    requires Honest(c, s) && i < |requests| == Pow2(depth) && depth <= 31 && |nonce| == 32
    ensures Validate(c, requests[i], Packet(Encode(PlainReply(c, s, requests, depth, i, nonce).top)), s.longTermKey,
      nonce)
         == Success(Validated(s.midp, s.radi))
  {
    var r := PlainReply(c, s, requests, depth, i, nonce);
    PlainReplyAssembled(c, s, requests, depth, i, nonce);
    HonestReplyAccepted(c, s, requests, depth, i, nonce, r, []);
    assert Packet(Encode(r.top)) + [] == Packet(Encode(r.top));
  }
}
