/**
 The 143-byte PoT record and the frames around it, in both languages: src/pot_frame.ts, src/roughtime/grg_bridge.rs,
 no_std_verify.rs, pot_crypto.rs, quic_transport.rs and the extended frame of wire.rs.
*/
module PotRecord {
  import opened Wrappers
  import opened ByteOrder
  import opened MerkleWalk
  import Tlv
  import opened RoughtimeChain

  const POT_RECORD_SIZE := 143
  const POT_WITHOUT_SIG_SIZE := 79
  const BINDING_KEY_SIZE := 32
  const POT_FRAME_SIZE := 175

  // ---- The record as Rust assembles it ----

  datatype Fields = Fields(version: byte, tier: byte, sourceCnt: byte, rFlag: bool, timestampNs: u64,
      confidencePpm: u32, nonce: Digest)

  function Reserved(rFlag: bool): byte {
    if rFlag then 0x01 else 0x00
  }

  /** (version << 4) | (tier & 0x0F), in a u8. */
  function VersionTier(version: byte, tier: byte): byte {
    version % 0x10 * 0x10 + tier % 0x10
  }

  /** assemble_pot_payload: 47 bytes. */
  function Payload(f: Fields): (p: Bytes)
    ensures |p| == 47
  {
    [VersionTier(f.version, f.tier), f.sourceCnt, Reserved(f.rFlag)] + Be64(f.timestampNs) + Be32(f.confidencePpm)
        + f.nonce
  }

  /** What sign_pot signs and verify_pot checks: payload and commitment, 79 bytes. */
  function SignedPart(f: Fields, commitment: Digest): (m: Bytes)
    ensures |m| == POT_WITHOUT_SIG_SIZE
  {
    Payload(f) + commitment
  }

  type Sig64 = b: Bytes | |b| == 64 witness Zeros(64)

  function Record(f: Fields, commitment: Digest, sig: Sig64): (r: Bytes)
    ensures |r| == POT_RECORD_SIZE
  {
    SignedPart(f, commitment) + sig
  }

  // ---- The TypeScript frame ----

  datatype PotFrame = PotFrame(bindingKey: Bytes, potRecord: Bytes, version: int, tier: int, reserved: int,
                               timestamp: u64, confidence: u32, nonce: Bytes, grgCommit: Bytes, ed25519Sig: Bytes)

  /** encodePotFrame; None is PotFrameError. */
  function EncodePotFrame(bindingKey: Bytes, potRecord: Bytes): Option<Bytes> {
    if |bindingKey| != BINDING_KEY_SIZE || |potRecord| != POT_RECORD_SIZE then None else Some(bindingKey + potRecord)
  }

  /** The fields of a record at their offsets, read as decodePotFrame reads them. */
  function ParseRecord(bindingKey: Bytes, r: Bytes): PotFrame
    requires |r| == POT_RECORD_SIZE
  {
    PotFrame(bindingKey, r, r[0] / 0x10 % 0x10, r[0] % 0x10, r[2], ReadBe64(r, 3), ReadBe32(r, 11), r[15..47],
        r[47..79], r[79..143])
  }

  /** Where each field of a decoded frame stands in the frame. */
  predicate ReadsFrame(p: PotFrame, frame: Bytes)
    requires |frame| == 175
  {
    && p.bindingKey == frame[..32] && p.potRecord == frame[32..175]
    && p.version == frame[32] / 16 && p.tier == frame[32] % 16 && p.reserved == frame[34]
    && p.timestamp == Big64(frame, 35) && p.confidence == Big32(frame, 43)
    && p.nonce == frame[47..79] && p.grgCommit == frame[79..111] && p.ed25519Sig == frame[111..175]
  }

  lemma InFrame(frame: Bytes, i: nat, j: nat)
    requires |frame| == 175 && i <= j <= 143
    ensures frame[32..175][i..j] == frame[32 + i..32 + j]
  {
    var s, t := frame[32..175][i..j], frame[32 + i..32 + j];
    assert forall k :: 0 <= k < j - i ==> s[k] == frame[32 + (i + k)] == t[k];
  }

  lemma NumbersInFrame(frame: Bytes)
    requires |frame| == 175
    ensures ReadBe64(frame[32..175], 3) == Big64(frame, 35) && ReadBe32(frame[32..175], 11) == Big32(frame, 43)
  {
    var r := frame[32..175];
    InFrame(frame, 3, 11);
    InFrame(frame, 11, 15);
    ReadsArePositional(r, 3);
    ReadsArePositional(r, 11);
    SameBig64(r, 3, frame, 35);
    SameBig32(r, 11, frame, 43);
  }

  lemma DecodeMeans(frame: Bytes)
    ensures Decode(frame).Some? <==> |frame| == 175
    ensures |frame| == 175 ==> ReadsFrame(Decode(frame).value, frame)
  {
    if |frame| == 175 {
      NumbersInFrame(frame);
      InFrame(frame, 15, 47);
      InFrame(frame, 47, 79);
      InFrame(frame, 79, 143);
    }
  }

  /** decodePotFrame, moving an offset through the record; None is PotFrameError. */
  method DecodePotFrame(frame: Bytes) returns (r: Option<PotFrame>)
    ensures r == Decode(frame)
    ensures r.Some? <==> |frame| == 175
    ensures r.Some? ==> ReadsFrame(r.value, frame)
  {
    DecodeMeans(frame);
    if |frame| != POT_FRAME_SIZE {
      return None;
    }
    var bindingKey, potRecord := frame[..BINDING_KEY_SIZE], frame[BINDING_KEY_SIZE..POT_FRAME_SIZE];
    var offset := 0;
    var versionTier: byte := potRecord[offset];
    offset := offset + 1;
    var version, tier := versionTier / 0x10 % 0x10, versionTier % 0x10;
    offset := offset + 1;
    var reserved := potRecord[offset];
    offset := offset + 1;
    var timestamp := ReadBe64(potRecord, offset);
    offset := offset + 8;
    var confidence := ReadBe32(potRecord, offset);
    offset := offset + 4;
    var nonce := potRecord[offset..offset + 32];
    offset := offset + 32;
    var grgCommit := potRecord[offset..offset + 32];
    offset := offset + 32;
    var ed25519Sig := potRecord[offset..offset + 64];
    return Some(PotFrame(bindingKey, potRecord, version, tier, reserved, timestamp, confidence, nonce, grgCommit,
        ed25519Sig));
  }

  function Decode(frame: Bytes): Option<PotFrame> {
    if |frame| != POT_FRAME_SIZE then None
    else Some(ParseRecord(frame[..BINDING_KEY_SIZE], frame[BINDING_KEY_SIZE..POT_FRAME_SIZE]))
  }

  /** potRecordWithoutSig: the TLS exporter context. */
  function WithoutSig(potRecord: Bytes): Bytes
    requires |potRecord| == POT_RECORD_SIZE
  {
    potRecord[..POT_WITHOUT_SIG_SIZE]
  }

  // ---- The Rust parsers and frames ----

  /** parse_pot_header: version, tier, source count, R flag. */
  function ParsePotHeader(bytes: Bytes): Option<(int, int, int, bool)> {
    if |bytes| < 3 then None else Some((bytes[0] / 0x10 % 0x10, bytes[0] % 0x10, bytes[1], bytes[2] % 2 == 1))
  }

  function ExtractTimestampNs(bytes: Bytes): Option<u64> {
    if |bytes| < 11 then None else Some(ReadBe64(bytes, 3))
  }

  /** The part of a record before its last 64 bytes: the binding context of PotFrameExtended.build and verify. */
  function BindingContext(potRecord: Bytes): Bytes {
    potRecord[..if |potRecord| >= 64 then |potRecord| - 64 else 0]
  }

  datatype ExtendedFrame = ExtendedFrame(bindingKey: Digest, potRecord: Bytes)

  /** HMAC-SHA256 of a key and a message; any function with 32-byte results. */
  type Mac = (Bytes, Bytes) -> Digest

  const EXPORTER_LABEL: Bytes := Ascii("EXPORTER-tttps-pot-binding")

  /** What derive_binding_key feeds its HMAC: label, separator, the context's length as a u32, context. */
  function BindingInput(context: Bytes): Bytes {
    EXPORTER_LABEL + [0x00] + Be32(|context|) + context
  }

  /** derive_binding_key: an HMAC under the session's master secret, in place of the TLS exporter. */
  function DeriveBindingKey(hmac: Mac, secret: Bytes, context: Bytes): Digest {
    hmac(secret, BindingInput(context))
  }

  function BuildExtended(hmac: Mac, secret: Bytes, potRecord: Bytes): ExtendedFrame {
    ExtendedFrame(DeriveBindingKey(hmac, secret, BindingContext(potRecord)), potRecord)
  }

  predicate VerifyExtended(hmac: Mac, secret: Bytes, f: ExtendedFrame) {
    DeriveBindingKey(hmac, secret, BindingContext(f.potRecord)) == f.bindingKey
  }

  function ExtendedToBytes(f: ExtendedFrame): Bytes {
    f.bindingKey + f.potRecord
  }

  function ExtendedFromBytes(bytes: Bytes): Option<ExtendedFrame> {
    if |bytes| < BINDING_KEY_SIZE then None else Some(ExtendedFrame(bytes[..BINDING_KEY_SIZE],
        bytes[BINDING_KEY_SIZE..]))
  }

  /** parse_extended_pot_frame of wire.rs: anything beyond 175 bytes is ignored. */
  function ParseExtendedPotFrame(bytes: Bytes): Option<(Digest, Bytes)> {
    if |bytes| < POT_FRAME_SIZE then None else Some((bytes[..32], bytes[32..175]))
  }

  /** What the Rust readers need and where they look. */
  lemma RustReadersMean(b: Bytes)
    ensures ParsePotHeader(b) == if |b| < 3 then None else Some((b[0] / 16, b[0] % 16, b[1], b[2] % 2 == 1))
    ensures ExtractTimestampNs(b).Some? <==> |b| >= 11
    ensures |b| >= 11 ==> ExtractTimestampNs(b).value == Big64(b, 3)
    ensures ExtendedFromBytes(b).Some? <==> |b| >= 32
    ensures |b| >= 32 ==> ExtendedFromBytes(b).value == ExtendedFrame(b[..32], b[32..])
    ensures ParseExtendedPotFrame(b) == if |b| < 175 then None else Some((b[..32], b[32..175]))
  {
    if |b| >= 11 {
      ReadsArePositional(b, 3);
    }
  }

  // ---- Agreement ----

  lemma PayloadLayout(f: Fields)
    ensures var p := Payload(f);
            p[0] == VersionTier(f.version, f.tier) && p[1] == f.sourceCnt && p[2] == Reserved(f.rFlag)
            && p[3..11] == Be64(f.timestampNs) && p[11..15] == Be32(f.confidencePpm) && p[15..47] == f.nonce
  {
  }

  lemma RecordLayout(f: Fields, commitment: Digest, sig: Sig64)
    ensures var r := Record(f, commitment, sig);
            r[..47] == Payload(f) && r[47..79] == commitment && r[79..] == sig && r[..79] == SignedPart(f, commitment)
  {
  }

  /** The 143 bytes Rust puts together, field by field. */
  lemma RecordBytes(f: Fields, commitment: Digest, sig: Sig64)
    ensures var r := Record(f, commitment, sig);
            && |r| == 143 && r[0] == f.version % 16 * 16 + f.tier % 16 && r[1] == f.sourceCnt
            && r[2] == (if f.rFlag then 1 else 0)
            && Big64(r, 3) == f.timestampNs && Big32(r, 11) == f.confidencePpm
            && r[15..47] == f.nonce && r[47..79] == commitment && r[79..143] == sig
  {
    var r, p := Record(f, commitment, sig), Payload(f);
    RecordLayout(f, commitment, sig);
    PayloadLayout(f);
    assert forall k :: 0 <= k < 47 ==> r[k] == r[..47][k] == p[k];
    assert r[3..11] == p[3..11] && r[11..15] == p[11..15] && r[15..47] == p[15..47] && r[79..143] == r[79..];
    Big64Of(r, 3, f.timestampNs);
    Big32Of(r, 11, f.confidencePpm);
  }

  lemma ReadBe64Of(b: Bytes, i: nat, v: u64)
    requires i + 8 <= |b| && b[i..i + 8] == Be64(v)
    ensures ReadBe64(b, i) == v
  {
    var w := b[i..i + 8];
    assert forall k :: 0 <= k < 8 ==> b[i + k] == w[k];
    assert ReadBe64(b, i) == ReadBe64(w, 0);
  }

  lemma ReadBe32Of(b: Bytes, i: nat, v: u32)
    requires i + 4 <= |b| && b[i..i + 4] == Be32(v)
    ensures ReadBe32(b, i) == v
  {
    var w := b[i..i + 4];
    assert forall k :: 0 <= k < 4 ==> b[i + k] == w[k];
    assert ReadBe32(b, i) == ReadBe32(w, 0);
  }

  lemma NibblesUnpack(version: byte, tier: byte)
    requires version < 0x10 && tier < 0x10
    ensures VersionTier(version, tier) / 0x10 % 0x10 == version && VersionTier(version, tier) % 0x10 == tier
  {
  }

  lemma RecordParsesBack(f: Fields, commitment: Digest, sig: Sig64, bindingKey: Digest)
    requires f.version < 0x10 && f.tier < 0x10
    ensures var r := Record(f, commitment, sig);
            && ParseRecord(bindingKey, r)
               == PotFrame(bindingKey, r, f.version, f.tier, Reserved(f.rFlag), f.timestampNs, f.confidencePpm, f.nonce,
                   commitment, sig)
            && ParsePotHeader(r) == Some((f.version, f.tier, f.sourceCnt, f.rFlag))
            && ExtractTimestampNs(r) == Some(f.timestampNs)
  {
    var r := Record(f, commitment, sig);
    RecordLayout(f, commitment, sig);
    PayloadLayout(f);
    NibblesUnpack(f.version, f.tier);
    assert forall k :: 0 <= k < 47 ==> r[k] == Payload(f)[k];
    assert r[3..11] == Payload(f)[3..11] && r[11..15] == Payload(f)[11..15] && r[15..47] == Payload(f)[15..47];
    assert r[79..143] == r[79..];
    ReadBe64Of(r, 3, f.timestampNs);
    ReadBe32Of(r, 11, f.confidencePpm);
  }

  /** Every field Rust puts into a record is what the TypeScript frame decoder and both Rust header parsers read out of
      it. */
  lemma RecordFieldsAgree(f: Fields, commitment: Digest, sig: Sig64, bindingKey: Digest)
    requires f.version < 0x10 && f.tier < 0x10
    ensures var r := Record(f, commitment, sig);
            && EncodePotFrame(bindingKey, r).Some?
            && Decode(EncodePotFrame(bindingKey, r).value)
               == Some(PotFrame(bindingKey, r, f.version, f.tier, Reserved(f.rFlag), f.timestampNs, f.confidencePpm,
                   f.nonce, commitment, sig))
            && ParsePotHeader(r) == Some((f.version, f.tier, f.sourceCnt, f.rFlag))
            && ExtractTimestampNs(r) == Some(f.timestampNs)
  {
    var r := Record(f, commitment, sig);
    RecordParsesBack(f, commitment, sig, bindingKey);
    assert (bindingKey + r)[..32] == bindingKey && (bindingKey + r)[32..175] == r;
  }

  /** The 79 bytes Rust signs are the bytes TypeScript verifies, and both languages bind the frame to them. */
  lemma SignedBytesAgree(f: Fields, commitment: Digest, sig: Sig64)
    ensures WithoutSig(Record(f, commitment, sig)) == SignedPart(f, commitment)
      == BindingContext(Record(f, commitment, sig))
  {
    RecordLayout(f, commitment, sig);
  }

  /** A frame Rust builds around a 143-byte record is the TypeScript frame of it, survives its own bytes, and verifies
      under its secret. */
  lemma ExtendedFrameRoundTrip(hmac: Mac, secret: Bytes, potRecord: Bytes)
    ensures var built := BuildExtended(hmac, secret, potRecord);
            && ExtendedFromBytes(ExtendedToBytes(built)) == Some(built) && VerifyExtended(hmac, secret, built)
            && (|potRecord| == POT_RECORD_SIZE ==>
                  EncodePotFrame(built.bindingKey, potRecord) == Some(ExtendedToBytes(built))
                  && ParseExtendedPotFrame(ExtendedToBytes(built)) == Some((built.bindingKey, potRecord)))
  {
    var key := DeriveBindingKey(hmac, secret, BindingContext(potRecord));
    assert (key + potRecord)[..32] == key && (key + potRecord)[32..] == potRecord;
    assert |potRecord| == POT_RECORD_SIZE ==> (key + potRecord)[32..175] == potRecord;
  }

  /** Rust's binding key for a 79-byte context, from bytes. */
  lemma BindingKeyBytes(hmac: Mac, secret: Bytes, context: Bytes)
    requires |context| == 79
    ensures DeriveBindingKey(hmac, secret, context)
         == hmac(secret, Ascii("EXPORTER-tttps-pot-binding") + [0, 0, 0, 0, 79] + context)
  {
    LengthBytes(context, EXPORTER_LABEL);
  }

  lemma LengthBytes(context: Bytes, prefix: Bytes)
    requires |context| == 79
    ensures prefix + [0x00] + Be32(|context|) + context == prefix + [0, 0, 0, 0, 79] + context
  {
    assert Be32(|context|) == [0, 0, 0, 79];
    assert prefix + [0x00] + Be32(|context|) == prefix + [0, 0, 0, 0, 79];
  }

  /** Rust accepts a binding key for one signed part only: a frame verifies under the key built for another record
      exactly when their contexts are equal, or two HMAC inputs collide. */
  lemma BindingKeyBinds(hmac: Mac, secret: Bytes, r: Bytes, s: Bytes)
    ensures VerifyExtended(hmac, secret, ExtendedFrame(BuildExtended(hmac, secret, r).bindingKey, s)) <==>
              BindingContext(r) == BindingContext(s)
              || Collide(m => hmac(secret, m), BindingInput(BindingContext(r)), BindingInput(BindingContext(s)))
  {
    var c, d := BindingContext(r), BindingContext(s);
    if BindingInput(c) == BindingInput(d) {
      var n := |EXPORTER_LABEL| + 5;
      assert BindingInput(c)[n..] == c && BindingInput(d)[n..] == d;
    }
  }

  // ---- GRG inputs ----

  /** build_grg_input and build_grg_input_basic; the length is cast to u32. */
  function GrgInput(payload: Bytes, chainDigest: Digest): Bytes {
    Be32(|payload|) + payload + chainDigest
  }

  function GrgInputBasic(payload: Bytes): Bytes {
    Be32(|payload|) + payload
  }

  /** Length, payload, digest: the length is cut to four bytes. */
  lemma GrgInputBytes(payload: Bytes, chainDigest: Digest)
    ensures var b, n := GrgInput(payload, chainDigest), |payload|;
            && |b| == 36 + n && Big32(b, 0) == n % 0x1_0000_0000 && b[4..4 + n] == payload
            && b[4 + n..] == chainDigest
    ensures var b, n := GrgInputBasic(payload), |payload|;
            |b| == 4 + n && Big32(b, 0) == n % 0x1_0000_0000 && b[4..] == payload
  {
    Big32Of(GrgInput(payload, chainDigest), 0, |payload|);
    Big32Of(GrgInputBasic(payload), 0, |payload|);
  }

  /** A payload determines its fields; of version and tier it determines the low four bits. */
  lemma PayloadBinds(f: Fields, g: Fields)
    ensures Payload(f) == Payload(g) <==>
      f == g.(version := f.version, tier := f.tier) && f.version % 0x10 == g.version % 0x10
          && f.tier % 0x10 == g.tier % 0x10
  {
    if Payload(f) == Payload(g) {
      PayloadLayout(f);
      PayloadLayout(g);
      ReadBe64Of(Payload(f), 3, f.timestampNs);
      ReadBe64Of(Payload(g), 3, g.timestampNs);
      ReadBe32Of(Payload(f), 11, f.confidencePpm);
      ReadBe32Of(Payload(g), 11, g.confidencePpm);
    }
  }

  /** Equal inputs have equal payloads and digests, whatever the payload's length. */
  lemma GrgInputBinds(p: Bytes, q: Bytes, d: Digest, e: Digest)
    requires GrgInput(p, d) == GrgInput(q, e)
    ensures p == q && d == e
  {
    assert |GrgInput(p, d)| == 4 + |p| + 32 && |GrgInput(q, e)| == 4 + |q| + 32;
    ConcatInjective(Be32(|p|) + p, d, Be32(|q|) + q, e);
    ConcatInjective(Be32(|p|), p, Be32(|q|), q);
  }

  lemma Be32Digits(v: nat)
    ensures ReadBe32(Be32(v), 0) == v % TWO_32
  {
    WritesArePositional(v);
  }

  /** An input built with a chain is never one built without: the announced length differs by the 32 bytes of the
      digest. */
  lemma ChainInputIsNotBasic(p: Bytes, q: Bytes, d: Digest)
    ensures GrgInput(p, d) != GrgInputBasic(q)
  {
    if GrgInput(p, d) == GrgInputBasic(q) {
      assert |q| == |p| + 32;
      assert GrgInput(p, d)[..4] == Be32(|p|) && GrgInputBasic(q)[..4] == Be32(|q|);
      Be32Digits(|p|);
      Be32Digits(|q|);
      WrapsApart(|p|);
    }
  }

  lemma WrapsApart(n: nat)
    ensures n % TWO_32 != (n + 32) % TWO_32
  {
  }

  // ---- The chain transcript ----

  predicate SameReport(a: Attestation, b: Attestation) {
    a.midp == b.midp && a.radi == b.radi && a.root == b.root && a.nonce == b.nonce
  }

  predicate SameReports(atts: seq<Attestation>, btts: seq<Attestation>) {
    |atts| == |btts| && forall i :: 0 <= i < |atts| ==> SameReport(atts[i], btts[i])
  }

  lemma EntryBinds(a: Attestation, b: Attestation)
    requires Entry(a) == Entry(b)
    ensures SameReport(a, b)
  {
    ConcatInjective(Be64(a.midp) + Be32(a.radi) + a.root, a.nonce, Be64(b.midp) + Be32(b.radi) + b.root, b.nonce);
    ConcatInjective(Be64(a.midp) + Be32(a.radi), a.root, Be64(b.midp) + Be32(b.radi), b.root);
    ConcatInjective(Be64(a.midp), Be32(a.radi), Be64(b.midp), Be32(b.radi));
    assert ReadBe64(Be64(a.midp), 0) == a.midp && ReadBe64(Be64(b.midp), 0) == b.midp;
    assert ReadBe32(Be32(a.radi), 0) == a.radi && ReadBe32(Be32(b.radi), 0) == b.radi;
  }

  lemma {:induction false} EntriesLength(atts: seq<Attestation>)
    ensures |Entries(atts)| == 76 * |atts|
  {
    if atts != [] {
      EntriesLength(atts[..|atts| - 1]);
    }
  }

  lemma LastEntry(atts: seq<Attestation>, btts: seq<Attestation>)
    requires Entries(atts) == Entries(btts) && atts != []
    ensures |atts| == |btts| && Entry(atts[|atts| - 1]) == Entry(btts[|atts| - 1])
    ensures Entries(atts[..|atts| - 1]) == Entries(btts[..|atts| - 1])
  {
    var m := |atts| - 1;
    EntriesLength(atts);
    EntriesLength(btts);
    EntriesLength(atts[..m]);
    EntriesLength(btts[..m]);
    ConcatInjective(Entries(atts[..m]), Entry(atts[m]), Entries(btts[..m]), Entry(btts[m]));
  }

  lemma SameButLast(atts: seq<Attestation>, btts: seq<Attestation>)
    requires |atts| == |btts| > 0
    requires SameReports(atts[..|atts| - 1], btts[..|btts| - 1]) && SameReport(atts[|atts| - 1], btts[|btts| - 1])
    ensures SameReports(atts, btts)
  {
    forall i | 0 <= i < |atts| - 1
      ensures SameReport(atts[i], btts[i])
    {
      assert atts[i] == atts[..|atts| - 1][i] && btts[i] == btts[..|btts| - 1][i];
    }
  }

  lemma {:induction false} EntriesBind(atts: seq<Attestation>, btts: seq<Attestation>)
    requires Entries(atts) == Entries(btts)
    ensures SameReports(atts, btts)
    decreases |atts|
  {
    if atts == [] {
      EntriesLength(btts);
    } else {
      var m := |atts| - 1;
      LastEntry(atts, btts);
      EntriesBind(atts[..m], btts[..m]);
      EntryBinds(atts[m], btts[m]);
      SameButLast(atts, btts);
    }
  }

  /** The 76 bytes the digest takes of one attestation. */
  predicate ReportBytes(b: Bytes, a: Attestation)
    requires |b| == 76
  {
    && Big64(b, 0) == a.midp && Big32(b, 8) == a.radi && b[12..44] == a.root && b[44..] == a.nonce
  }

  lemma EntryBytes(a: Attestation)
    ensures |Entry(a)| == 76 && ReportBytes(Entry(a), a)
  {
    var b := Entry(a);
    Big64Of(b, 0, a.midp);
    Big32Of(b, 8, a.radi);
  }

  /** Block i of 76 bytes. */
  predicate BlockAt(b: Bytes, i: nat, e: Bytes) {
    76 * i + 76 <= |b| && b[76 * i..76 * i + 76] == e
  }

  lemma BlockStays(whole: Bytes, before: Bytes, last: Bytes, i: nat, e: Bytes)
    requires whole == before + last && BlockAt(before, i, e)
    ensures BlockAt(whole, i, e)
  {
    Tlv.SliceOfFirst(before, last, 76 * i, 76 * i + 76);
  }

  lemma LastBlock(whole: Bytes, before: Bytes, m: nat, e: Bytes)
    requires whole == before + e && |before| == 76 * m && |e| == 76
    ensures BlockAt(whole, m, e)
  {
    Tlv.SliceOfSecond(before, e);
  }

  lemma EntriesGrow(atts: seq<Attestation>, m: nat) returns (before: Bytes, last: Bytes)
    requires |atts| == m + 1
    ensures before == Entries(atts[..m]) && last == Entry(atts[m])
    ensures Entries(atts) == before + last && |before| == 76 * m && |last| == 76
  {
    before, last := Entries(atts[..m]), Entry(atts[m]);
    EntriesLength(atts[..m]);
  }

  lemma {:induction false} EntriesBytes(atts: seq<Attestation>, i: nat, e: Bytes)
    requires i < |atts| && e == Entry(atts[i])
    ensures BlockAt(Entries(atts), i, e)
  {
    var before, last := EntriesGrow(atts, |atts| - 1);
    if i < |atts| - 1 {
      EntriesBytes(atts[..|atts| - 1], i, e);
      BlockStays(Entries(atts), before, last, i, e);
    } else {
      LastBlock(Entries(atts), before, i, last);
    }
  }

  lemma AfterCount(count: byte, entries: Bytes, i: nat)
    requires 76 * i + 76 <= |entries|
    ensures ([count] + entries)[1 + 76 * i..77 + 76 * i] == entries[76 * i..76 * i + 76]
  {
  }

  /** The digested transcript: the number of attestations in one byte, then the report of each. */
  lemma TranscriptBytes(atts: seq<Attestation>, i: nat)
    requires i < |atts|
    ensures var t := Transcript(atts);
            && |t| == 1 + 76 * |atts| && t[0] == |atts| % 256 && ReportBytes(t[1 + 76 * i..77 + 76 * i], atts[i])
  {
    EntriesLength(atts);
    EntriesBytes(atts, i, Entry(atts[i]));
    EntryBytes(atts[i]);
    AfterCount(|atts| % 256, Entries(atts), i);
  }

  /** Equal chain digests mean equal reports, in order, or a SHA-256 collision between the two transcripts. The one-byte
      count does not weaken this: the entries have a fixed size. */
  lemma DigestBinds(sha256: Hash, atts: seq<Attestation>, btts: seq<Attestation>)
    requires sha256(Transcript(atts)) == sha256(Transcript(btts))
    ensures SameReports(atts, btts) || Collide(sha256, Transcript(atts), Transcript(btts))
  {
    if Transcript(atts) == Transcript(btts) {
      assert Transcript(atts)[1..] == Entries(atts) && Transcript(btts)[1..] == Entries(btts);
      EntriesBind(atts, btts);
    }
  }

  /** prepare_grg_input_with_chain: version 1, R flag set, and the digest the chain carries, which is not recomputed. */
  function PrepareGrgInputWithChain(f: Fields, chain: Chain): (Bytes, Digest) {
    (GrgInput(Payload(f.(version := 1, rFlag := true)), chain.digest), chain.digest)
  }

  /** A chain one of the two builders returned. */
  predicate Built(sha512: Hash, sha256: Hash, chain: Chain) {
    || BuildChain(sha512, sha256, chain.attestations) == Success(chain)
    || BuildChainUnchecked(sha256, chain.attestations) == Success(chain)
  }

  lemma BuiltCarriesDigest(sha512: Hash, sha256: Hash, chain: Chain)
    requires Built(sha512, sha256, chain)
    ensures chain.digest == sha256(Transcript(chain.attestations))
  {
  }

  /** Over chains the builders returned, equal GRG inputs mean the same PoT payload over the same reports, or a SHA-256
      collision. */
  lemma GrgInputBindsChain(sha512: Hash, sha256: Hash, f: Fields, g: Fields, c: Chain, d: Chain)
    requires Built(sha512, sha256, c) && Built(sha512, sha256, d)
    requires PrepareGrgInputWithChain(f, c).0 == PrepareGrgInputWithChain(g, d).0
    ensures Payload(f.(version := 1, rFlag := true)) == Payload(g.(version := 1, rFlag := true))
    ensures || SameReports(c.attestations, d.attestations)
            || Collide(sha256, Transcript(c.attestations), Transcript(d.attestations))
  {
    BuiltCarriesDigest(sha512, sha256, c);
    BuiltCarriesDigest(sha512, sha256, d);
    GrgInputBinds(Payload(f.(version := 1, rFlag := true)), Payload(g.(version := 1, rFlag := true)), c.digest,
        d.digest);
    DigestBinds(sha256, c.attestations, d.attestations);
  }

  // ---- The QUIC frame ----

  datatype QuicFrame = QuicFrame(streamType: byte, payloadLen: u32, rFlag: bool, payload: Bytes)

  function NewQuicFrame(payload: Bytes, rFlag: bool): QuicFrame {
    QuicFrame(0x74, |payload| % TWO_32, rFlag, payload)
  }

  function QuicToBytes(f: QuicFrame): Bytes {
    [f.streamType] + Be32(f.payloadLen) + [if f.rFlag then 0x01 else 0x00] + f.payload
  }

  /** from_bytes: bytes after the announced payload are ignored. */
  function QuicFromBytes(bytes: Bytes): Option<QuicFrame> {
    if |bytes| < 6 || |bytes| < 6 + ReadBe32(bytes, 1) then None
    else Some(QuicFrame(bytes[0], ReadBe32(bytes, 1), bytes[5] == 0x01, bytes[6..6 + ReadBe32(bytes, 1)]))
  }

  /** The frame reader needs six bytes and the payload they announce. */
  lemma QuicReads(b: Bytes)
    ensures QuicFromBytes(b).Some? <==> |b| >= 6 && 6 + Big32(b, 1) <= |b|
    ensures QuicFromBytes(b).Some? ==>
      QuicFromBytes(b).value == QuicFrame(b[0], Big32(b, 1), b[5] == 1, b[6..6 + Big32(b, 1)])
  {
    if |b| >= 6 {
      ReadIsPositional(b, 1);
    }
  }

  lemma QuicLayout(f: QuicFrame, tail: Bytes)
    ensures var b := QuicToBytes(f) + tail;
            |b| == 6 + |f.payload| + |tail| && b[0] == f.streamType && ReadBe32(b, 1) == f.payloadLen
            && b[5] == (if f.rFlag then 0x01 else 0x00) && b[6..6 + |f.payload|] == f.payload
  {
    var b := QuicToBytes(f) + tail;
    assert b[1..5] == Be32(f.payloadLen);
    ReadBe32Of(b, 1, f.payloadLen);
  }

  /** The bytes of a QUIC frame: stream type, length, R flag, payload. */
  lemma QuicBytes(payload: Bytes, rFlag: bool)
    ensures var b := QuicToBytes(NewQuicFrame(payload, rFlag));
            && |b| == 6 + |payload| && b[0] == 0x74 && Big32(b, 1) == |payload| % 0x1_0000_0000
            && b[5] == (if rFlag then 1 else 0) && b[6..] == payload
  {
    var b := QuicToBytes(NewQuicFrame(payload, rFlag));
    Big32Of(b, 1, |payload| % TWO_32);
  }

  /** With len announced, the frame carries the first len bytes of its payload. */
  lemma QuicParses(b: Bytes, payload: Bytes, rFlag: bool, len: u32)
    requires |b| >= 6 + |payload| && b[0] == 0x74 && ReadBe32(b, 1) == len <= |payload|
    requires b[5] == (if rFlag then 0x01 else 0x00) && b[6..6 + |payload|] == payload
    ensures QuicFromBytes(b) == Some(QuicFrame(0x74, len, rFlag, b[6..6 + len]))
    ensures b[6..6 + len] == payload <==> len == |payload|
  {
    assert |b[6..6 + len]| == len;
  }

  /** The frame survives the wire exactly when its payload is under 2^32 bytes; beyond that the length field wraps and
      the receiver sees a shorter payload. Trailing bytes are ignored. */
  lemma QuicRoundTrip(payload: Bytes, rFlag: bool, tail: Bytes)
    ensures QuicFromBytes(QuicToBytes(NewQuicFrame(payload, rFlag)) + tail) == Some(NewQuicFrame(payload, rFlag)) <==>
      |payload| < TWO_32
  {
    var f := NewQuicFrame(payload, rFlag);
    QuicLayout(f, tail);
    QuicParses(QuicToBytes(f) + tail, payload, rFlag, f.payloadLen);
  }
}
