/** The Rust client's request and response format (src/roughtime/wire.rs), beside the TypeScript one. */
module RoughtimeWire {
  import opened Wrappers
  import opened ByteOrder
  import opened Tlv
  import opened MerkleWalk
  import opened RoughtimeValidation

  const ROUGHTIME_MAGIC: u64 := 0x4d49544847554f52

  datatype RoughtimeResponse = RoughtimeResponse(midp: u64, radi: u32, root: Digest, sig: Bytes,
                                                 pubk: Bytes, mint: u64, maxt: u64, indx: u32, path: seq<Digest>)

  function GetFixed(m: map<u32, Bytes>, tag: u32, n: nat): (v: Option<Bytes>)
    ensures v.Some? ==> |v.value| == n
  {
    if tag in m && |m[tag]| == n then Some(m[tag]) else None
  }

  function GetU32(m: map<u32, Bytes>, tag: u32): Option<u32> {
    if tag in m && |m[tag]| == 4 then Some(ReadLe32(m[tag], 0)) else None
  }

  function GetU64(m: map<u32, Bytes>, tag: u32): Option<u64> {
    if tag in m && |m[tag]| == 8 then Some(ReadLe64(m[tag], 0)) else None
  }

  function Or<T>(o: Option<T>, default: T): T {
    if o.Some? then o.value else default
  }

  function Lookup(m: map<u32, Bytes>, tag: u32): Option<Bytes> {
    if tag in m then Some(m[tag]) else None
  }

  /** The delegation message inside the certificate, if both are there and parse. */
  function FindDelegation(outer: map<u32, Bytes>): Option<map<u32, Bytes>> {
    if CERT !in outer then None
    else
      var cert :- RustParse(outer[CERT]);
      if DELE !in cert then None else RustParse(cert[DELE])
  }

  function DelegationFields(dele: map<u32, Bytes>): (Bytes, u64, u64) {
    (Or(GetFixed(dele, PUBK, 32), Zeros(32)), Or(GetU64(dele, MINT), 0), Or(GetU64(dele, MAXT), TWO_64 - 1))
  }

  /** The delegation fields, each with its default when it or a message around it is missing. */
  function ReadDelegation(outer: map<u32, Bytes>): (Bytes, u64, u64) {
    if FindDelegation(outer).None? then (Zeros(32), 0, TWO_64 - 1)
    else DelegationFields(FindDelegation(outer).value)
  }

  function ReadPath(outer: map<u32, Bytes>): seq<Digest> {
    if PATH in outer then Nodes(outer[PATH]) else []
  }

  /** What a parsed message answers. */
  function ReadAnswer(outer: map<u32, Bytes>): Option<RoughtimeResponse> {
    var sig :- GetFixed(outer, SIG, 64);
    var srepBytes :- Lookup(outer, SREP);
    var srep :- RustParse(srepBytes);
    var midp :- GetU64(srep, MIDP);
    var radi :- GetU32(srep, RADI);
    var root :- GetFixed(srep, ROOT, 32);
    Some(RoughtimeResponse(midp, radi, root, sig, ReadDelegation(outer).0, ReadDelegation(outer).1,
        ReadDelegation(outer).2, Or(GetU32(outer, INDX), 0), ReadPath(outer)))
  }

  /** parse_roughtime_response. */
  function ParseResponse(packet: Bytes): Option<RoughtimeResponse> {
    if |packet| < 12 || ReadLe64(packet, 0) != ROUGHTIME_MAGIC || |packet| < 12 + ReadLe32(packet, 8) then None
    else
      var outer :- RustParse(packet[12..12 + ReadLe32(packet, 8)]);
      ReadAnswer(outer)
  }

  // ---- What the reading is ----

  predicate HasExactly(m: map<u32, Bytes>, tag: u32, n: nat) {
    tag in m && |m[tag]| == n
  }

  /** The packet begins with the magic and holds the message it announces. */
  predicate HoldsMessage(packet: Bytes) {
    && |packet| >= 12 && packet[..8] == Ascii("ROUGHTIM") && 12 + Little32(packet, 8) <= |packet|
  }

  /** The parts without which there is no answer. */
  predicate Answers(outer: map<u32, Bytes>) {
    && HasExactly(outer, SIG, 64) && SREP in outer && RustParse(outer[SREP]).Some?
    && var srep := RustParse(outer[SREP]).value;
       HasExactly(srep, MIDP, 8) && HasExactly(srep, RADI, 4) && HasExactly(srep, ROOT, 32)
  }

  /** The answer gives the report's numbers, the signature, index 0 unless there is one of four bytes, and the whole
      nodes of the path. */
  predicate GivesReport(r: RoughtimeResponse, outer: map<u32, Bytes>, srep: map<u32, Bytes>)
    requires HasExactly(srep, MIDP, 8) && HasExactly(srep, RADI, 4) && HasExactly(srep, ROOT, 32)
    requires HasExactly(outer, SIG, 64)
  {
    && r.midp == Little64(srep[MIDP], 0) && r.radi == Little32(srep[RADI], 0) && r.root == srep[ROOT]
    && r.sig == outer[SIG] && r.indx == (if HasExactly(outer, INDX, 4) then Little32(outer[INDX], 0) else 0)
    && r.path == if PATH in outer then Nodes(outer[PATH]) else []
  }

  /** The delegation reached through both messages, if it is. */
  predicate Delegates(outer: map<u32, Bytes>) {
    && CERT in outer && RustParse(outer[CERT]).Some? && DELE in RustParse(outer[CERT]).value
    && RustParse(RustParse(outer[CERT]).value[DELE]).Some?
  }

  /** Each field of the delegation that is there at its width, and otherwise the widest window and a key of zeros. */
  predicate GivesDelegation(r: RoughtimeResponse, dele: map<u32, Bytes>) {
    && r.pubk == (if HasExactly(dele, PUBK, 32) then dele[PUBK] else seq(32, _ => 0))
    && r.mint == (if HasExactly(dele, MINT, 8) then Little64(dele[MINT], 0) else 0)
    && r.maxt == if HasExactly(dele, MAXT, 8) then Little64(dele[MAXT], 0) else 0xFFFF_FFFF_FFFF_FFFF
  }

  lemma Numbers(m: map<u32, Bytes>, tag: u32)
    ensures GetU32(m, tag).Some? <==> HasExactly(m, tag, 4)
    ensures HasExactly(m, tag, 4) ==> GetU32(m, tag).value == Little32(m[tag], 0)
    ensures GetU64(m, tag).Some? <==> HasExactly(m, tag, 8)
    ensures HasExactly(m, tag, 8) ==> GetU64(m, tag).value == Little64(m[tag], 0)
  {
    if HasExactly(m, tag, 4) {
      ReadIsPositional(m[tag], 0);
    }
    if HasExactly(m, tag, 8) {
      ReadsArePositional(m[tag], 0);
    }
  }

  lemma SameHalves(lo: u32, hi: u32, lo': u32, hi': u32)
    ensures lo + TWO_32 * hi == lo' + TWO_32 * hi' <==> lo == lo' && hi == hi'
  {
  }

  lemma MagicWords(packet: Bytes)
    requires |packet| >= 8
    ensures ReadLe64(packet, 0) == ROUGHTIME_MAGIC <==>
      ReadLe32(packet, 0) == Word(82, 79, 85, 71) && ReadLe32(packet, 4) == Word(72, 84, 73, 77)
  {
    SameHalves(ReadLe32(packet, 0), ReadLe32(packet, 4), Word(82, 79, 85, 71), Word(72, 84, 73, 77));
  }

  lemma MagicIsAscii(packet: Bytes)
    requires |packet| >= 8
    ensures ReadLe64(packet, 0) == ROUGHTIME_MAGIC <==> packet[..8] == Ascii("ROUGHTIM")
  {
    MagicWords(packet);
    SameWord(packet[0], packet[1], packet[2], packet[3], 82, 79, 85, 71);
    SameWord(packet[4], packet[5], packet[6], packet[7], 72, 84, 73, 77);
    assert Ascii("ROUGHTIM") == [82, 79, 85, 71, 72, 84, 73, 77];
  }

  lemma SameWord(a: byte, b: byte, c: byte, d: byte, a': byte, b': byte, c': byte, d': byte)
    ensures Word(a, b, c, d) == Word(a', b', c', d') <==> a == a' && b == b' && c == c' && d == d'
  {
    WordDigits(a, b, c, d);
    WordDigits(a', b', c', d');
    assert [a, b, c, d][0] == a && [a, b, c, d][1] == b && [a, b, c, d][2] == c && [a, b, c, d][3] == d;
    assert [a', b', c', d'][0] == a' && [a', b', c', d'][1] == b' && [a', b', c', d'][2] == c';
    assert [a', b', c', d'][3] == d';
  }

  lemma DelegationRead(outer: map<u32, Bytes>, r: RoughtimeResponse)
    requires (r.pubk, r.mint, r.maxt) == ReadDelegation(outer)
    ensures GivesDelegation(r, if Delegates(outer) then RustParse(RustParse(outer[CERT]).value[DELE]).value else map[])
  {
    if Delegates(outer) {
      Numbers(RustParse(RustParse(outer[CERT]).value[DELE]).value, MINT);
      Numbers(RustParse(RustParse(outer[CERT]).value[DELE]).value, MAXT);
    }
  }

  lemma AnswerMeans(outer: map<u32, Bytes>)
    ensures ReadAnswer(outer).Some? <==> Answers(outer)
    ensures Answers(outer) ==> GivesReport(ReadAnswer(outer).value, outer, RustParse(outer[SREP]).value)
    ensures Answers(outer) ==>
      (ReadAnswer(outer).value.pubk, ReadAnswer(outer).value.mint, ReadAnswer(outer).value.maxt)
          == ReadDelegation(outer)
  {
    Numbers(outer, INDX);
    if SREP in outer && RustParse(outer[SREP]).Some? {
      Numbers(RustParse(outer[SREP]).value, MIDP);
      Numbers(RustParse(outer[SREP]).value, RADI);
    }
  }

  /** The answer gives what stands in the messages. */
  predicate Gives(r: RoughtimeResponse, outer: map<u32, Bytes>)
    requires Answers(outer)
  {
    && GivesReport(r, outer, RustParse(outer[SREP]).value)
    && GivesDelegation(r, if Delegates(outer) then RustParse(RustParse(outer[CERT]).value[DELE]).value else map[])
  }

  lemma AnswerGives(outer: map<u32, Bytes>)
    ensures ReadAnswer(outer).Some? <==> Answers(outer)
    ensures Answers(outer) ==> Gives(ReadAnswer(outer).value, outer)
  {
    AnswerMeans(outer);
    if Answers(outer) {
      DelegationRead(outer, ReadAnswer(outer).value);
    }
  }

  lemma PacketParsed(packet: Bytes)
    ensures ParseResponse(packet).Some? ==> HoldsMessage(packet)
    ensures HoldsMessage(packet) ==>
      var outer := RustParse(packet[12..12 + Little32(packet, 8)]);
      ParseResponse(packet) == if outer.None? then None else ReadAnswer(outer.value)
  {
    if |packet| >= 12 {
      MagicIsAscii(packet);
      ReadIsPositional(packet, 8);
    }
  }

  /** The Rust client answers exactly when magic, lengths and the four required values are right, and gives what stands
      in the messages, with defaults for the rest. */
  lemma ResponseMeans(packet: Bytes)
    ensures ParseResponse(packet).Some? <==>
      && HoldsMessage(packet) && RustParse(packet[12..12 + Little32(packet, 8)]).Some?
      && Answers(RustParse(packet[12..12 + Little32(packet, 8)]).value)
    ensures ParseResponse(packet).Some? ==>
      Gives(ParseResponse(packet).value, RustParse(packet[12..12 + Little32(packet, 8)]).value)
  {
    PacketParsed(packet);
    if HoldsMessage(packet) && RustParse(packet[12..12 + Little32(packet, 8)]).Some? {
      AnswerGives(RustParse(packet[12..12 + Little32(packet, 8)]).value);
    }
  }

  // ---- Agreement with the TypeScript client ----

  predicate RustReadable(buf: Bytes) {
    HasHeader(buf) && 0 < Count(buf) <= 64
  }

  predicate HasWidth(buf: Bytes, tag: u32, n: nat) {
    Parse(buf).Some? && tag in Parse(buf).value && |Parse(buf).value[tag]| == n
  }

  /** The values are exactly as wide as section 5 says; the TypeScript client only asks that numbers are not shorter. */
  ghost predicate ExactWidths(msg: Bytes, e: Evidence) {
    && |e.sig| == 64 && |e.pubk| == 32 && |e.root| == 32 && HasWidth(msg, INDX, 4)
    && HasWidth(e.srep, MIDP, 8) && HasWidth(e.srep, RADI, 4) && HasWidth(e.dele, MINT, 8) && HasWidth(e.dele, MAXT, 8)
  }

  lemma SameReport(e: Evidence)
    requires RustReadable(e.srep) && HoldsReport(e) && |e.root| == 32 && HasWidth(e.srep, MIDP, 8)
      && HasWidth(e.srep, RADI, 4)
    ensures RustParse(e.srep).Some?
    ensures var srep := RustParse(e.srep).value;
            GetU64(srep, MIDP) == Some(e.midp) && GetU32(srep, RADI) == Some(e.radi)
                && GetFixed(srep, ROOT, 32) == Some(e.root)
  {
    ParsersAgree(e.srep);
  }

  lemma SameDelegation(outer: map<u32, Bytes>, cert: Bytes, e: Evidence)
    requires CERT in outer && outer[CERT] == cert && RustReadable(cert) && RustReadable(e.dele)
      && HoldsDelegation(cert, e)
    requires |e.pubk| == 32 && HasWidth(e.dele, MINT, 8) && HasWidth(e.dele, MAXT, 8)
    ensures ReadDelegation(outer) == (e.pubk, e.mint, e.maxt)
  {
    ParsersAgree(cert);
    ParsersAgree(e.dele);
  }

  /** On a packet with the magic and its whole message, every evidence the TypeScript client can read at the standard
      widths and with at most 64 tags a message is what the Rust client returns, root, path and delegation included. */
  lemma ClientsReadTheSame(packet: Bytes, nonce: Bytes, cert: Bytes, e: Evidence)
    requires |packet| >= 12 && ReadLe64(packet, 0) == ROUGHTIME_MAGIC && |packet| >= 12 + ReadLe32(packet, 8)
    requires Holds(Message(packet), nonce, e) && Carries(Message(packet), CERT, cert) && HoldsDelegation(cert, e)
    requires RustReadable(Message(packet)) && RustReadable(cert) && RustReadable(e.dele) && RustReadable(e.srep)
    requires ExactWidths(Message(packet), e)
    ensures ParseResponse(packet)
         == Some(RoughtimeResponse(e.midp, e.radi, e.root, e.sig, e.pubk, e.mint, e.maxt, e.indx, Nodes(e.path)))
  {
    ParsersAgree(Message(packet));
    var outer := RustParse(Message(packet)).value;
    SameReport(e);
    SameDelegation(outer, cert, e);
  }

  // ---- Requests ----

  function RustMessage(nonce: Digest): (msg: Bytes)
    ensures |msg| == 52
  {
    (Le32(2) + Le32(4) + Le32(VER) + Le32(NONC)) + (Le32(1) + nonce)
  }

  /** build_roughtime_request: magic, length and message, then zeros up to 1024 bytes. */
  function RustRequest(nonce: Digest): Bytes {
    Le64(ROUGHTIME_MAGIC) + Le32(|RustMessage(nonce)|) + RustMessage(nonce) + Zeros(1024 - 12 - |RustMessage(nonce)|)
  }

  /** The pairs of buildRoughtimeRequest in the order its sort by tag gives. */
  function RequestPairs(h: Hash, nonce: Bytes, serverKey: Bytes, padding: Option<nat>): seq<Field> {
    [Field(VER, Le32(1) + Le32(0x8000000c)), Field(SRV, h([0xFF] + serverKey)), Field(NONC, nonce),
        Field(TYPE, Le32(0))]
    + (if padding.Some? then [Field(ZZZZ, Zeros(padding.value))] else [])
  }

  /** buildRoughtimeRequest; None is the error for a nonce that is not 32 bytes. */
  function TsRequest(h: Hash, nonce: Bytes, serverKey: Bytes): Option<Bytes> {
    if |nonce| != 32 then None
    else
      var unpadded := 12 + |Encode(RequestPairs(h, nonce, serverKey, None))|;
      Some(Packet(Encode(RequestPairs(h, nonce, serverKey, if unpadded < 1024 then Some(1024 - unpadded) else None))))
  }

  /** Both requests are padded past 1024 bytes' minimum and carry the nonce: the Rust one is exactly 1024 bytes, its
      padding outside the message; the TypeScript one is 1032, because the padding is sized before its own tag and
      offset are added. */
  lemma RequestsCarryNonce(h: Hash, nonce: Digest, serverKey: Bytes)
    ensures |RustRequest(nonce)| == 1024
    ensures Parse(Message(RustRequest(nonce))) == Some(map[VER := Le32(1), NONC := nonce])
    ensures TsRequest(h, nonce, serverKey).Some? && |TsRequest(h, nonce, serverKey).value| == 1032
    ensures CarriesRequest(Message(TsRequest(h, nonce, serverKey).value), h, nonce, serverKey)
  {
    RustRequestCarries(nonce);
    TsRequestCarries(h, nonce, serverKey);
  }

  lemma Stands(a: Bytes, b: Bytes, c: Bytes)
    ensures (a + b + c)[|a|..|a| + |b|] == b
  {
  }

  /** The Rust request begins with the magic in ASCII and has the nonce at byte 32. */
  lemma RustRequestBytes(nonce: Digest)
    ensures var b := RustRequest(nonce); |b| == 1024 && b[..8] == Ascii("ROUGHTIM") && b[32..64] == nonce
  {
    var head := Le64(ROUGHTIME_MAGIC) + Le32(|RustMessage(nonce)|);
    var words := Le32(2) + Le32(4) + Le32(VER) + Le32(NONC);
    var pad := Zeros(1024 - 12 - |RustMessage(nonce)|);
    assert RustRequest(nonce) == (head + words + Le32(1)) + nonce + pad;
    Stands(head + words + Le32(1), nonce, pad);
    MagicStands(RustRequest(nonce), Le32(|RustMessage(nonce)|) + RustMessage(nonce) + pad);
  }

  lemma MagicStands(b: Bytes, rest: Bytes)
    requires b == Le64(ROUGHTIME_MAGIC) + rest
    ensures b[..8] == Ascii("ROUGHTIM")
  {
    assert b[..8] == Le64(ROUGHTIME_MAGIC);
    MagicIsAscii(Le64(ROUGHTIME_MAGIC));
    assert Le64(ROUGHTIME_MAGIC)[..8] == Le64(ROUGHTIME_MAGIC);
  }

  lemma {:induction false} FourWords(a: nat, b: nat, c: nat, d: nat)
    ensures Words([a, b, c, d]) == Le32(a) + Le32(b) + Le32(c) + Le32(d)
  {
    assert [a, b, c, d][..3] == [a, b, c] && [a, b, c][..2] == [a, b] && [a, b][..1] == [a];
    assert Words([a]) == Le32(a);
    assert Words([a, b]) == Le32(a) + Le32(b);
    assert Words([a, b, c]) == Le32(a) + Le32(b) + Le32(c);
  }

  function RustPairs(nonce: Digest): seq<Field> {
    [Field(VER, Le32(1)), Field(NONC, nonce)]
  }

  lemma RustMessageEncodes(nonce: Digest)
    ensures Fits(RustPairs(nonce)) && RustMessage(nonce) == Encode(RustPairs(nonce))
  {
    var fields := RustPairs(nonce);
    assert Offset(fields, 1) == 4;
    assert Header(fields) == [2, 4, VER, NONC];
    FourWords(2, 4, VER, NONC);
    assert Values(fields, 1) == Le32(1);
    assert Values(fields, 2) == Le32(1) + nonce;
  }

  lemma RustRequestCarries(nonce: Digest)
    ensures |RustRequest(nonce)| == 1024
    ensures Parse(Message(RustRequest(nonce))) == Some(map[VER := Le32(1), NONC := nonce])
  {
    RustMessageEncodes(nonce);
    MessageOfMagic(RustMessage(nonce), Zeros(960));
    ParseEncode(RustPairs(nonce));
    RustPairsMap(nonce);
  }

  lemma RustPairsMap(nonce: Digest)
    ensures ToMap(RustPairs(nonce)) == map[VER := Le32(1), NONC := nonce]
  {
    ToMapAppend([], Field(VER, Le32(1)));
    ToMapAppend([Field(VER, Le32(1))], Field(NONC, nonce));
    assert [] + [Field(VER, Le32(1))] == [Field(VER, Le32(1))];
    assert [Field(VER, Le32(1))] + [Field(NONC, nonce)] == RustPairs(nonce);
  }

  /** The numeric magic is the ASCII one, so a packet reads the same with either. */
  lemma MessageOfMagic(msg: Bytes, tail: Bytes)
    requires |msg| < TWO_32
    ensures var p := Le64(ROUGHTIME_MAGIC) + Le32(|msg|) + msg + tail; |p| >= 12 && Message(p) == msg
  {
    var p := Le64(ROUGHTIME_MAGIC) + Le32(|msg|) + msg + tail;
    assert forall i :: 0 <= i < 4 ==> p[8 + i] == Le32(|msg|)[i];
    assert p[12..12 + |msg|] == msg;
  }

  lemma PaddedCarries(h: Hash, nonce: Digest, serverKey: Bytes, i: nat)
    requires Fits(RequestPairs(h, nonce, serverKey, Some(904))) && i < 5
    ensures var f := RequestPairs(h, nonce, serverKey, Some(904))[i];
            Carries(Encode(RequestPairs(h, nonce, serverKey, Some(904))), f.tag, f.value)
  {
    var padded := RequestPairs(h, nonce, serverKey, Some(904));
    ParseEncode(padded);
    forall j | i < j < 5
      ensures padded[j].tag != padded[i].tag
    {
      TagsAscend(h, nonce, serverKey, Some(904), i, j);
    }
    ToMapLookup(padded, i);
  }

  /** Versions 1 and 0x8000000c, the hash of the server's key behind 0xFF, the nonce, request type 0 and zeros. */
  predicate CarriesRequest(msg: Bytes, h: Hash, nonce: Digest, serverKey: Bytes) {
    && Carries(msg, VER, [1, 0, 0, 0, 0x0C, 0, 0, 0x80]) && Carries(msg, SRV, h([0xFF] + serverKey))
    && Carries(msg, NONC, nonce) && Carries(msg, TYPE, [0, 0, 0, 0]) && Carries(msg, ZZZZ, seq(904, _ => 0))
  }

  lemma PaddedCarriesAll(h: Hash, nonce: Digest, serverKey: Bytes)
    requires Fits(RequestPairs(h, nonce, serverKey, Some(904)))
    ensures CarriesRequest(Encode(RequestPairs(h, nonce, serverKey, Some(904))), h, nonce, serverKey)
  {
    assert Le32(1) + Le32(0x8000000c) == [1, 0, 0, 0, 0x0C, 0, 0, 0x80] && Le32(0) == [0, 0, 0, 0];
    PaddedCarries(h, nonce, serverKey, 0);
    PaddedCarries(h, nonce, serverKey, 1);
    PaddedCarries(h, nonce, serverKey, 2);
    PaddedCarries(h, nonce, serverKey, 3);
    PaddedCarries(h, nonce, serverKey, 4);
  }

  lemma TsRequestIs(h: Hash, nonce: Digest, serverKey: Bytes)
    ensures TsRequest(h, nonce, serverKey) == Some(Packet(Encode(RequestPairs(h, nonce, serverKey, Some(904)))))
  {
    BareLength(h, nonce, serverKey);
  }

  lemma TsRequestCarries(h: Hash, nonce: Digest, serverKey: Bytes)
    ensures TsRequest(h, nonce, serverKey).Some? && |TsRequest(h, nonce, serverKey).value| == 1032
    ensures CarriesRequest(Message(TsRequest(h, nonce, serverKey).value), h, nonce, serverKey)
  {
    var msg := Encode(RequestPairs(h, nonce, serverKey, Some(904)));
    TsRequestIs(h, nonce, serverKey);
    PaddedLength(h, nonce, serverKey, 904);
    PaddedCarriesAll(h, nonce, serverKey);
    MessageOfPacket(msg, []);
    assert Packet(msg) + [] == Packet(msg);
  }

  lemma OffsetNext(fields: seq<Field>, i: nat)
    requires i < |fields|
    ensures Offset(fields, i + 1) == Offset(fields, i) + |fields[i].value|
  {
  }

  lemma BareLength(h: Hash, nonce: Digest, serverKey: Bytes)
    ensures |Encode(RequestPairs(h, nonce, serverKey, None))| == 108
  {
    var bare := RequestPairs(h, nonce, serverKey, None);
    OffsetNext(bare, 0);
    OffsetNext(bare, 1);
    OffsetNext(bare, 2);
    OffsetNext(bare, 3);
    EncodedLength(bare);
  }

  lemma PaddedLength(h: Hash, nonce: Digest, serverKey: Bytes, n: nat)
    requires n <= 1024
    ensures var padded := RequestPairs(h, nonce, serverKey, Some(n)); Fits(padded) && |Encode(padded)| == 116 + n
  {
    var padded := RequestPairs(h, nonce, serverKey, Some(n));
    OffsetNext(padded, 0);
    OffsetNext(padded, 1);
    OffsetNext(padded, 2);
    OffsetNext(padded, 3);
    OffsetNext(padded, 4);
    EncodedLength(padded);
  }

  /** The pairs are in the order both sorts of buildRoughtimeRequest leave them in: tags strictly ascending. */
  lemma TagsAscend(h: Hash, nonce: Bytes, serverKey: Bytes, padding: Option<nat>, i: nat, j: nat)
    requires i < j < |RequestPairs(h, nonce, serverKey, padding)|
    ensures RequestPairs(h, nonce, serverKey, padding)[i].tag < RequestPairs(h, nonce, serverKey, padding)[j].tag
  {
    assert VER < SRV < NONC < TYPE < ZZZZ;
  }
}
