/** The request builder and the section 5.4 response check of src/roughtime_source.ts. */
module RoughtimeValidation {
  import opened Wrappers
  import opened ByteOrder
  import opened Tlv
  import opened MerkleWalk

  /** SHA-512 cut to 32 bytes, and Ed25519 as Node offers it: whether a raw key can be loaded, and verification, false
      on an exception. */
  datatype Crypto = Crypto(hash: Hash, keyLoads: Bytes -> bool, verify: (Bytes, Bytes, Bytes) -> bool)

  datatype Rejection =
    | ShortField  // a numeric field shorter than its read, thrown by Buffer
    | PacketTooShort | BadTopLevel | NonceMismatch | MissingType | WrongType | MissingTopLevel
    | BadCert | MissingCert | BadDele | MissingDele | BadLongTermKey | CertSigInvalid
    | BadDelegatedKey | SrepSigInvalid | BadSrep | MissingSrep
    | OutsideWindow | IndexLeft | RootMismatch

  datatype Validated = Validated(midpSeconds: u64, radiSeconds: u32)

  // ---- Tags: four ASCII bytes read little-endian ----

  const NONC: u32 := Word(0x4E, 0x4F, 0x4E, 0x43)
  const SRV: u32 := Word(0x53, 0x52, 0x56, 0)
  const TYPE: u32 := Word(0x54, 0x59, 0x50, 0x45)
  const VER: u32 := Word(0x56, 0x45, 0x52, 0)
  const ZZZZ: u32 := Word(0x5A, 0x5A, 0x5A, 0x5A)
  const SIG: u32 := Word(0x53, 0x49, 0x47, 0)
  const PATH: u32 := Word(0x50, 0x41, 0x54, 0x48)
  const SREP: u32 := Word(0x53, 0x52, 0x45, 0x50)
  const CERT: u32 := Word(0x43, 0x45, 0x52, 0x54)
  const INDX: u32 := Word(0x49, 0x4E, 0x44, 0x58)
  const DELE: u32 := Word(0x44, 0x45, 0x4C, 0x45)
  const PUBK: u32 := Word(0x50, 0x55, 0x42, 0x4B)
  const MINT: u32 := Word(0x4D, 0x49, 0x4E, 0x54)
  const MAXT: u32 := Word(0x4D, 0x41, 0x58, 0x54)
  const RADI: u32 := Word(0x52, 0x41, 0x44, 0x49)
  const MIDP: u32 := Word(0x4D, 0x49, 0x44, 0x50)
  const ROOT: u32 := Word(0x52, 0x4F, 0x4F, 0x54)

  const MAGIC: Bytes := Ascii("ROUGHTIM")
  const DELE_CONTEXT: Bytes := Ascii("RoughTime v1 delegation signature\0")
  const SREP_CONTEXT: Bytes := Ascii("RoughTime v1 response signature\0")

  /** The tags are their names in ASCII, read least significant byte first. */
  lemma TagsAreNames()
    ensures NONC == Little32(['N' as int, 'O' as int, 'N' as int, 'C' as int], 0)
    ensures SRV == Little32(['S' as int, 'R' as int, 'V' as int, 0], 0)
    ensures TYPE == Little32(['T' as int, 'Y' as int, 'P' as int, 'E' as int], 0)
    ensures VER == Little32(['V' as int, 'E' as int, 'R' as int, 0], 0)
    ensures ZZZZ == Little32(['Z' as int, 'Z' as int, 'Z' as int, 'Z' as int], 0)
    ensures SIG == Little32(['S' as int, 'I' as int, 'G' as int, 0], 0)
    ensures PATH == Little32(['P' as int, 'A' as int, 'T' as int, 'H' as int], 0)
    ensures SREP == Little32(['S' as int, 'R' as int, 'E' as int, 'P' as int], 0)
    ensures CERT == Little32(['C' as int, 'E' as int, 'R' as int, 'T' as int], 0)
    ensures INDX == Little32(['I' as int, 'N' as int, 'D' as int, 'X' as int], 0)
    ensures DELE == Little32(['D' as int, 'E' as int, 'L' as int, 'E' as int], 0)
    ensures PUBK == Little32(['P' as int, 'U' as int, 'B' as int, 'K' as int], 0)
    ensures MINT == Little32(['M' as int, 'I' as int, 'N' as int, 'T' as int], 0)
    ensures MAXT == Little32(['M' as int, 'A' as int, 'X' as int, 'T' as int], 0)
    ensures RADI == Little32(['R' as int, 'A' as int, 'D' as int, 'I' as int], 0)
    ensures MIDP == Little32(['M' as int, 'I' as int, 'D' as int, 'P' as int], 0)
    ensures ROOT == Little32(['R' as int, 'O' as int, 'O' as int, 'T' as int], 0)
  {
  }

  /** A message in its packet: magic, length, message. */
  function Packet(msg: Bytes): Bytes {
    MAGIC + Le32(|msg|) + msg
  }

  /** What subarray(12, 12 + msgLen) sees: the announced message, cut at the end of the packet. */
  function Message(packet: Bytes): Bytes
    requires |packet| >= 12
  {
    var msgLen := ReadLe32(packet, 8);
    packet[12..if 12 + msgLen <= |packet| then 12 + msgLen else |packet|]
  }

  lemma MessageOfPacket(msg: Bytes, tail: Bytes)
    requires |msg| < TWO_32
    ensures |Packet(msg) + tail| >= 12 && Message(Packet(msg) + tail) == msg
    ensures (Packet(msg) + tail)[..8] == MAGIC && ReadLe32(Packet(msg) + tail, 8) == |msg|
  {
    var p := Packet(msg) + tail;
    assert forall i :: 0 <= i < 4 ==> p[8 + i] == Le32(|msg|)[i];
    assert p[12..12 + |msg|] == msg;
  }

  // ---- The response check ----

  function Need(ok: bool, why: Rejection): Result<(), Rejection> {
    if ok then Success(()) else Failure(why)
  }

  function Parsed(buf: Bytes, why: Rejection): Result<map<u32, Bytes>, Rejection> {
    match Parse(buf)
    case Some(m) => Success(m)
    case None => Failure(why)
  }

  function U32(b: Bytes): Result<u32, Rejection> {
    if |b| >= 4 then Success(ReadLe32(b, 0)) else Failure(ShortField)
  }

  function U64(b: Bytes): Result<u64, Rejection> {
    if |b| >= 8 then Success(ReadLe64(b, 0)) else Failure(ShortField)
  }

  predicate Loads(c: Crypto, key: Bytes) {
    |key| == 32 && c.keyLoads(key)
  }

  datatype Delegation = Delegation(pubk: Bytes, mint: u64, maxt: u64)

  /** The certificate: its nested DELE message, signed by the long-term key. */
  function CheckCert(c: Crypto, serverKey: Bytes, certBytes: Bytes): Result<Delegation, Rejection> {
    var cert :- Parsed(certBytes, BadCert);
    var _ :- Need(SIG in cert && DELE in cert, MissingCert);
    var dele :- Parsed(cert[DELE], BadDele);
    var delegation :- ReadDele(dele);
    var _ :- Need(Loads(c, serverKey), BadLongTermKey);
    var _ :- Need(c.verify(serverKey, DELE_CONTEXT + cert[DELE], cert[SIG]), CertSigInvalid);
    Success(delegation)
  }

  function ReadDele(dele: map<u32, Bytes>): Result<Delegation, Rejection> {
    var _ :- Need(PUBK in dele && MINT in dele && MAXT in dele, MissingDele);
    var mint :- U64(dele[MINT]);
    var maxt :- U64(dele[MAXT]);
    Success(Delegation(dele[PUBK], mint, maxt))
  }

  /** The time report: signed by the delegated key, inside its window, committed to the request. */
  function CheckReport(c: Crypto, request: Bytes, d: Delegation, srepBytes: Bytes, sig: Bytes, indx: u32, path: Bytes)
    : Result<Validated, Rejection>
  {
    var _ :- Need(Loads(c, d.pubk), BadDelegatedKey);
    var _ :- Need(c.verify(d.pubk, SREP_CONTEXT + srepBytes, sig), SrepSigInvalid);
    var srep :- Parsed(srepBytes, BadSrep);
    CheckTime(c.hash, request, d, srep, indx, path)
  }

  function CheckTime(h: Hash, request: Bytes, d: Delegation, srep: map<u32, Bytes>, indx: u32, path: Bytes)
    : Result<Validated, Rejection>
  {
    var _ :- Need(RADI in srep && MIDP in srep && ROOT in srep, MissingSrep);
    var radi :- U32(srep[RADI]);
    var midp :- U64(srep[MIDP]);
    var _ :- Need(d.mint <= midp <= d.maxt, OutsideWindow);
    var _ :- CheckPath(h, request, indx, path, srep[ROOT]);
    Success(Validated(midp, radi))
  }

  /** The Merkle walk from the request: it uses the index up and ends at the root. */
  function CheckPath(h: Hash, request: Bytes, indx: u32, path: Bytes, root: Bytes): Result<(), Rejection> {
    var _ :- Need(IndexAfter(indx, |path| / 32) == 0, IndexLeft);
    Need(Climb(h, Leaf(h, request), indx, Nodes(path)) == root, RootMismatch)
  }

  lemma PathAccepted(h: Hash, request: Bytes, indx: u32, path: Bytes, root: Bytes)
    ensures CheckPath(h, request, indx, path, root).Success? <==>
              && indx < TWO_32 / 2 && indx < Pow2(|path| / 32)
              && Climb(h, Leaf(h, request), indx, Nodes(path)) == root
  {
    IndexUsedUp(indx, |path| / 32);
  }

  /** validateRoughtimeResponse, check by check in the order of the code. */
  function Validate(c: Crypto, request: Bytes, response: Bytes, serverKey: Bytes, nonce: Bytes)
    : Result<Validated, Rejection>
  {
    var _ :- Need(|response| >= 12, PacketTooShort);
    var top :- Parsed(Message(response), BadTopLevel);
    var _ :- Need(NONC in top && top[NONC] == nonce, NonceMismatch);
    var _ :- Need(TYPE in top, MissingType);
    var typeV :- U32(top[TYPE]);
    var _ :- Need(typeV == 1, WrongType);
    var _ :- Need(SIG in top && PATH in top && SREP in top && CERT in top && INDX in top, MissingTopLevel);
    var indx :- U32(top[INDX]);
    var delegation :- CheckCert(c, serverKey, top[CERT]);
    CheckReport(c, request, delegation, top[SREP], top[SIG], indx, top[PATH])
  }

  // ---- What acceptance means ----

  /** The values an accepted response rests on. */
  datatype Evidence = Evidence(sig: Bytes, path: Bytes, srep: Bytes, indx: u32,
                               certSig: Bytes, dele: Bytes, pubk: Bytes, mint: u64, maxt: u64,
                               midp: u64, radi: u32, root: Bytes)

  predicate Carries(buf: Bytes, tag: u32, value: Bytes) {
    Parse(buf).Some? && tag in Parse(buf).value && Parse(buf).value[tag] == value
  }

  predicate Carries32(buf: Bytes, tag: u32, v: u32) {
    Parse(buf).Some? && tag in Parse(buf).value && U32(Parse(buf).value[tag]) == Success(v)
  }

  predicate Carries64(buf: Bytes, tag: u32, v: u64) {
    Parse(buf).Some? && tag in Parse(buf).value && U64(Parse(buf).value[tag]) == Success(v)
  }

  ghost predicate HoldsDelegation(certBytes: Bytes, e: Evidence) {
    && Carries(certBytes, SIG, e.certSig) && Carries(certBytes, DELE, e.dele)
    && Carries(e.dele, PUBK, e.pubk) && Carries64(e.dele, MINT, e.mint) && Carries64(e.dele, MAXT, e.maxt)
  }

  ghost predicate HoldsReport(e: Evidence) {
    Carries64(e.srep, MIDP, e.midp) && Carries32(e.srep, RADI, e.radi) && Carries(e.srep, ROOT, e.root)
  }

  /** The response message, its certificate, delegation and signed report hold the evidence. */
  ghost predicate Holds(msg: Bytes, nonce: Bytes, e: Evidence) {
    && Carries(msg, NONC, nonce) && Carries32(msg, TYPE, 1)
    && Carries(msg, SIG, e.sig) && Carries(msg, PATH, e.path) && Carries(msg, SREP, e.srep)
    && Carries32(msg, INDX, e.indx)
    && (exists cert :: Carries(msg, CERT, cert) && HoldsDelegation(cert, e))
    && HoldsReport(e)
  }

  /** Long-term key signs the delegation, delegated key signs the report, the report's time is inside the delegation,
      and the report's root commits to the request. */
  predicate Endorses(c: Crypto, serverKey: Bytes, request: Bytes, e: Evidence) {
    && |serverKey| == 32 && c.keyLoads(serverKey) && |e.pubk| == 32 && c.keyLoads(e.pubk)
    && c.verify(serverKey, Ascii("RoughTime v1 delegation signature\0") + e.dele, e.certSig)
    && c.verify(e.pubk, Ascii("RoughTime v1 response signature\0") + e.srep, e.sig)
    && e.mint <= e.midp <= e.maxt
    && e.indx < 0x8000_0000 && e.indx < Pow2(|e.path| / 32)
    && Climb(c.hash, c.hash([0] + request), e.indx, Nodes(e.path)) == e.root
  }

  lemma DeleRead(dele: map<u32, Bytes>, pubk: Bytes, mint: u64, maxt: u64)
    requires PUBK in dele && dele[PUBK] == pubk
    requires MINT in dele && U64(dele[MINT]) == Success(mint) && MAXT in dele && U64(dele[MAXT]) == Success(maxt)
    ensures ReadDele(dele) == Success(Delegation(pubk, mint, maxt))
  {
  }

  lemma CertAccepted(c: Crypto, serverKey: Bytes, request: Bytes, cert: Bytes, e: Evidence)
    requires HoldsDelegation(cert, e) && Endorses(c, serverKey, request, e)
    ensures CheckCert(c, serverKey, cert) == Success(Delegation(e.pubk, e.mint, e.maxt))
  {
    DeleRead(Parse(e.dele).value, e.pubk, e.mint, e.maxt);
  }

  lemma TimeAccepted(h: Hash, request: Bytes, d: Delegation, srep: map<u32, Bytes>, indx: u32, path: Bytes, midp: u64,
      radi: u32, root: Bytes)
    requires RADI in srep && U32(srep[RADI]) == Success(radi) && MIDP in srep && U64(srep[MIDP]) == Success(midp)
    requires ROOT in srep && srep[ROOT] == root && d.mint <= midp <= d.maxt
      && CheckPath(h, request, indx, path, root).Success?
    ensures CheckTime(h, request, d, srep, indx, path) == Success(Validated(midp, radi))
  {
  }

  lemma ReportAccepted(c: Crypto, serverKey: Bytes, request: Bytes, e: Evidence)
    requires HoldsReport(e) && Endorses(c, serverKey, request, e)
    ensures CheckReport(c, request, Delegation(e.pubk, e.mint, e.maxt), e.srep, e.sig, e.indx, e.path)
         == Success(Validated(e.midp, e.radi))
  {
    PathAccepted(c.hash, request, e.indx, e.path, e.root);
    TimeAccepted(c.hash, request, Delegation(e.pubk, e.mint, e.maxt), Parse(e.srep).value, e.indx, e.path, e.midp,
        e.radi, e.root);
  }

  lemma CertIsSigned(c: Crypto, serverKey: Bytes, cert: Bytes) returns (certSig: Bytes, dele: Bytes)
    requires CheckCert(c, serverKey, cert).Success?
    ensures Carries(cert, SIG, certSig) && Carries(cert, DELE, dele)
    ensures Loads(c, serverKey) && c.verify(serverKey, DELE_CONTEXT + dele, certSig)
    ensures var d := CheckCert(c, serverKey, cert).value;
            Carries(dele, PUBK, d.pubk) && Carries64(dele, MINT, d.mint) && Carries64(dele, MAXT, d.maxt)
  {
    certSig, dele := Parse(cert).value[SIG], Parse(cert).value[DELE];
    DeleHeld(Parse(dele).value);
  }

  lemma DeleHeld(dele: map<u32, Bytes>)
    requires ReadDele(dele).Success?
    ensures PUBK in dele && MINT in dele && MAXT in dele
    ensures ReadDele(dele).value.pubk == dele[PUBK]
    ensures U64(dele[MINT]) == Success(ReadDele(dele).value.mint)
    ensures U64(dele[MAXT]) == Success(ReadDele(dele).value.maxt)
  {
  }

  lemma ReportIsSigned(c: Crypto, request: Bytes, d: Delegation, srepBytes: Bytes, sig: Bytes, indx: u32, path: Bytes)
      returns (root: Bytes)
    requires CheckReport(c, request, d, srepBytes, sig, indx, path).Success?
    ensures Loads(c, d.pubk) && c.verify(d.pubk, SREP_CONTEXT + srepBytes, sig)
    ensures Carries(srepBytes, ROOT, root) && Climb(c.hash, Leaf(c.hash, request), indx, Nodes(path)) == root
    ensures indx < TWO_32 / 2 && indx < Pow2(|path| / 32)
    ensures var v := CheckReport(c, request, d, srepBytes, sig, indx, path).value;
            Carries64(srepBytes, MIDP, v.midpSeconds) && Carries32(srepBytes, RADI, v.radiSeconds)
                && d.mint <= v.midpSeconds <= d.maxt
  {
    root := Parse(srepBytes).value[ROOT];
    PathAccepted(c.hash, request, indx, path, root);
  }

  /** An accepted response holds evidence that endorses exactly the time returned. */
  lemma AcceptanceIsEndorsed(c: Crypto, request: Bytes, response: Bytes, serverKey: Bytes, nonce: Bytes)
      returns (e: Evidence)
    requires Validate(c, request, response, serverKey, nonce).Success?
    ensures |response| >= 12 && Holds(Message(response), nonce, e) && Endorses(c, serverKey, request, e)
    ensures Validate(c, request, response, serverKey, nonce) == Success(Validated(e.midp, e.radi))
  {
    var top := Parse(Message(response)).value;
    var indx := U32(top[INDX]).value;
    var certSig, dele := CertIsSigned(c, serverKey, top[CERT]);
    var d := CheckCert(c, serverKey, top[CERT]).value;
    var root := ReportIsSigned(c, request, d, top[SREP], top[SIG], indx, top[PATH]);
    var v := CheckReport(c, request, d, top[SREP], top[SIG], indx, top[PATH]).value;
    e := Evidence(top[SIG], top[PATH], top[SREP], indx, certSig, dele, d.pubk, d.mint, d.maxt, v.midpSeconds,
        v.radiSeconds, root);
    assert Carries(Message(response), CERT, top[CERT]);
  }

  /** A response that holds endorsing evidence is accepted with the time the evidence gives. */
  lemma EndorsedIsAccepted(c: Crypto, request: Bytes, response: Bytes, serverKey: Bytes, nonce: Bytes, e: Evidence)
    requires |response| >= 12 && Holds(Message(response), nonce, e) && Endorses(c, serverKey, request, e)
    ensures Validate(c, request, response, serverKey, nonce) == Success(Validated(e.midp, e.radi))
  {
    var cert :| Carries(Message(response), CERT, cert) && HoldsDelegation(cert, e);
    CertAccepted(c, serverKey, request, cert, e);
    ReportAccepted(c, serverKey, request, e);
  }

  /** One signed report, INDX and path length prove at most one request, up to an explicit hash collision: two clients
      (or one client twice) whose accepted responses share them sent the same packet. */
  lemma AcceptedRequestsBind(c: Crypto, key: Bytes, r: Bytes, s: Bytes, m: Bytes, n: Bytes, nonceM: Bytes,
      nonceN: Bytes, e: Evidence, f: Evidence)
    returns (x: Bytes, y: Bytes)
    requires |m| >= 12 && Holds(Message(m), nonceM, e) && Validate(c, r, m, key, nonceM).Success?
    requires |n| >= 12 && Holds(Message(n), nonceN, f) && Validate(c, s, n, key, nonceN).Success?
    requires e.srep == f.srep && e.indx == f.indx && |e.path| / 32 == |f.path| / 32
    ensures r == s || Collide(c.hash, x, y)
  {
    var e' := AcceptanceIsEndorsed(c, r, m, key, nonceM);
    var f' := AcceptanceIsEndorsed(c, s, n, key, nonceN);
    assert e'.path == e.path && e'.indx == e.indx && e'.root == e.root;
    assert f'.path == f.path && f'.indx == f.indx && f'.root == f.root;
    WalkBinds(c.hash, r, s, e.indx, e.path, f.path);
    var w := WalkCollision(c.hash, r, s, e.indx, e.path, f.path);
    x, y := w.0, w.1;
  }
}
