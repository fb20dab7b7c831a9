/** The compact binary form of a Proof of Time: serializeToBinary and deserializeFromBinary of src/time_synthesis.ts. */
module PotBinary {
  import opened Wrappers
  import opened ByteOrder
  import opened PotRecord
  import opened Float32

  /** A JavaScript string: its length in UTF-16 units and its UTF-8 bytes, of which there are no fewer. */
  datatype JsText = JsText(units: nat, utf8: Bytes)

  type Name = t: JsText | t.units <= |t.utf8| witness JsText(0, [])

  /** What Buffer does with floats, and the text it reads UTF-8 bytes as. */
  datatype Host = Host(float: Codec, text: Bytes -> Name)

  datatype BinReading = BinReading(source: Name, timestamp: int, uncertainty: real, stratum: Option<int>)

  datatype BinPot = BinPot(timestamp: int, uncertainty: real, sources: int, stratum: int, confidence: real,
                           readings: seq<BinReading>, nonce: Bytes, expiresAt: int)

  datatype CodecError = RangeError

  predicate IsU8(x: int) {
    0 <= x < 0x100
  }

  predicate IsU64(x: int) {
    0 <= x < TWO_64
  }

  /** The bytes of a name that outlast the writes behind it: the code moves on by its length, not by its bytes. */
  function Slot(name: Name): (b: Bytes)
    ensures |b| == name.units
  {
    name.utf8[..name.units]
  }

  /** Every field fits the width it is written with. */
  predicate ReadingFits(r: BinReading) {
    IsU8(r.source.units) && IsU64(r.timestamp)
  }

  predicate HeaderFits(p: BinPot) {
    IsU64(p.timestamp) && IsU8(p.sources) && IsU8(p.stratum) && IsU8(|p.readings|) && IsU8(|p.nonce|)
        && IsU64(p.expiresAt)
  }

  predicate AllFit(rs: seq<BinReading>) {
    forall i :: 0 <= i < |rs| ==> ReadingFits(rs[i])
  }

  predicate Encodable(p: BinPot) {
    HeaderFits(p) && AllFit(p.readings)
  }

  /** A reading on the wire: the length of its name, the name, and its numbers. */
  function EncodeParts(name: Bytes, timestamp: u64, bits: u32): (b: Bytes)
    requires IsU8(|name|)
    ensures |b| == 13 + |name|
  {
    [|name|] + name + Be64(timestamp) + Be32(bits)
  }

  function EncodeReading(c: Host, r: BinReading): (b: Bytes)
    requires ReadingFits(r)
    ensures |b| == 13 + r.source.units
  {
    EncodeParts(Slot(r.source), r.timestamp, c.float.pack(r.uncertainty))
  }

  function EncodeReadings(c: Host, rs: seq<BinReading>): Bytes
    requires AllFit(rs)
  {
    if rs == [] then [] else EncodeReading(c, rs[0]) + EncodeReadings(c, rs[1..])
  }

  function EncodeNumbers(c: Host, p: BinPot): (b: Bytes)
    requires HeaderFits(p)
    ensures |b| == 18
  {
    Be64(p.timestamp) + Be32(c.float.pack(p.uncertainty)) + [p.sources] + [p.stratum] + Be32(c.float.pack(p.confidence))
  }

  function EncodeCounts(p: BinPot): (b: Bytes)
    requires HeaderFits(p)
    ensures |b| == 10 + |p.nonce|
  {
    [|p.readings|] + [|p.nonce|] + p.nonce + Be64(p.expiresAt)
  }

  function EncodeHeader(c: Host, p: BinPot): (b: Bytes)
    requires HeaderFits(p)
    ensures |b| == 28 + |p.nonce|
  {
    EncodeNumbers(c, p) + EncodeCounts(p)
  }

  function Encode(c: Host, p: BinPot): Bytes
    requires Encodable(p)
  {
    EncodeHeader(c, p) + EncodeReadings(c, p.readings)
  }

  // ---- Decoding; None where a Buffer read runs past the end ----

  function DecodeReading(c: Host, buf: Bytes, offset: nat): Option<(BinReading, nat)> {
    if |buf| < offset + 1 || |buf| < offset + 1 + buf[offset] + 12 then None
    else
      var n: nat := buf[offset];
      Some((BinReading(c.text(buf[offset + 1..offset + 1 + n]), ReadBe64(buf, offset + 1 + n),
                       c.float.unpack(ReadBe32(buf, offset + 9 + n)), None),
            offset + 13 + n))
  }

  function DecodeReadings(c: Host, buf: Bytes, offset: nat, n: nat): Option<seq<BinReading>>
    decreases n
  {
    if n == 0 then Some([])
    else
      var first :- DecodeReading(c, buf, offset);
      var rest :- DecodeReadings(c, buf, first.1, n - 1);
      Some([first.0] + rest)
  }

  function DecodeHeader(c: Host, buf: Bytes): Option<BinPot> {
    if |buf| < 20 || |buf| < 28 + (buf[19] as int) then None
    else
      var n: nat := buf[19];
      Some(BinPot(ReadBe64(buf, 0), c.float.unpack(ReadBe32(buf, 8)), buf[12], buf[13],
          c.float.unpack(ReadBe32(buf, 14)),
                  [], buf[20..20 + n], ReadBe64(buf, 20 + n)))
  }

  function Decode(c: Host, buf: Bytes): Option<BinPot> {
    var header :- DecodeHeader(c, buf);
    var readings :- DecodeReadings(c, buf, 28 + |header.nonce|, buf[18]);
    Some(header.(readings := readings))
  }

  // ---- Round trip ----

  /** What the binary form keeps of a reading: no stratum, and the uncertainty in single precision. */
  function KeptReading(c: Host, r: BinReading): BinReading {
    r.(source := c.text(Slot(r.source)), stratum := None, uncertainty := Trip(c.float, r.uncertainty))
  }

  function KeptReadings(c: Host, rs: seq<BinReading>): (ks: seq<BinReading>)
    ensures |ks| == |rs|
  {
    seq(|rs|, i requires 0 <= i < |rs| => KeptReading(c, rs[i]))
  }

  function KeptHeader(c: Host, p: BinPot): BinPot {
    p.(uncertainty := Trip(c.float, p.uncertainty), confidence := Trip(c.float, p.confidence), readings := [])
  }

  function Kept(c: Host, p: BinPot): BinPot {
    KeptHeader(c, p).(readings := KeptReadings(c, p.readings))
  }

  /** The encoding e stands in the buffer at this offset. */
  predicate At(buf: Bytes, offset: nat, e: Bytes) {
    offset + |e| <= |buf| && buf[offset..offset + |e|] == e
  }

  lemma PartAt(buf: Bytes, offset: nat, e: Bytes, i: nat, j: nat)
    requires At(buf, offset, e) && i <= j <= |e|
    ensures buf[offset + i..offset + j] == e[i..j]
  {
    forall k | 0 <= k < j - i
      ensures buf[offset + i..offset + j][k] == e[i..j][k]
    {
      assert buf[offset..offset + |e|][i + k] == e[i + k];
    }
  }

  lemma SplitAt(buf: Bytes, offset: nat, e: Bytes, f: Bytes)
    requires At(buf, offset, e + f)
    ensures At(buf, offset, e) && At(buf, offset + |e|, f)
  {
    PartAt(buf, offset, e + f, 0, |e|);
    PartAt(buf, offset, e + f, |e|, |e| + |f|);
    assert (e + f)[0..|e|] == e && (e + f)[|e|..|e| + |f|] == f;
  }

  lemma SplitFour(buf: Bytes, offset: nat, d: Bytes, e: Bytes, f: Bytes, g: Bytes)
    requires At(buf, offset, d + e + f + g)
    ensures At(buf, offset, d) && At(buf, offset + |d|, e)
    ensures At(buf, offset + |d| + |e|, f) && At(buf, offset + |d| + |e| + |f|, g)
  {
    SplitAt(buf, offset, d + e + f, g);
    SplitAt(buf, offset, d + e, f);
    SplitAt(buf, offset, d, e);
  }

  lemma ByteAt(buf: Bytes, offset: nat, x: byte)
    requires At(buf, offset, [x])
    ensures buf[offset] == x
  {
    assert buf[offset] == buf[offset..offset + 1][0];
  }

  lemma NumbersAt(buf: Bytes, offset: nat, timestamp: u64, bits: u32)
    requires At(buf, offset, Be64(timestamp)) && At(buf, offset + 8, Be32(bits))
    ensures ReadBe64(buf, offset) == timestamp && ReadBe32(buf, offset + 8) == bits
  {
    ReadBe64Of(buf, offset, timestamp);
    ReadBe32Of(buf, offset + 8, bits);
  }

  /** The decoder reads the four parts of a reading where they stand. */
  lemma DecodesParts(c: Host, buf: Bytes, offset: nat, name: Bytes, timestamp: u64, bits: u32)
    requires IsU8(|name|) && offset + 13 + |name| <= |buf| && buf[offset] == |name|
    requires buf[offset + 1..offset + 1 + |name|] == name
    requires ReadBe64(buf, offset + 1 + |name|) == timestamp && ReadBe32(buf, offset + 9 + |name|) == bits
    ensures DecodeReading(c, buf, offset)
         == Some((BinReading(c.text(name), timestamp, c.float.unpack(bits), None), offset + 13 + |name|))
  {
  }

  lemma PartsStand(buf: Bytes, offset: nat, name: Bytes, timestamp: u64, bits: u32)
    requires IsU8(|name|) && At(buf, offset, EncodeParts(name, timestamp, bits))
    ensures offset + 13 + |name| <= |buf| && buf[offset] == |name| && buf[offset + 1..offset + 1 + |name|] == name
    ensures ReadBe64(buf, offset + 1 + |name|) == timestamp && ReadBe32(buf, offset + 9 + |name|) == bits
  {
    SplitFour(buf, offset, [|name|], name, Be64(timestamp), Be32(bits));
    ByteAt(buf, offset, |name|);
    NumbersAt(buf, offset + 1 + |name|, timestamp, bits);
  }

  lemma PartsRoundTrip(c: Host, buf: Bytes, offset: nat, name: Bytes, timestamp: u64, bits: u32)
    requires IsU8(|name|) && At(buf, offset, EncodeParts(name, timestamp, bits))
    ensures DecodeReading(c, buf, offset)
         == Some((BinReading(c.text(name), timestamp, c.float.unpack(bits), None), offset + 13 + |name|))
  {
    PartsStand(buf, offset, name, timestamp, bits);
    DecodesParts(c, buf, offset, name, timestamp, bits);
  }

  lemma ReadingRoundTrip(c: Host, buf: Bytes, offset: nat, r: BinReading)
    requires ReadingFits(r) && At(buf, offset, EncodeReading(c, r))
    ensures DecodeReading(c, buf, offset) == Some((KeptReading(c, r), offset + |EncodeReading(c, r)|))
  {
    PartsRoundTrip(c, buf, offset, Slot(r.source), r.timestamp, c.float.pack(r.uncertainty));
  }

  lemma KeptFirst(c: Host, rs: seq<BinReading>)
    requires rs != []
    ensures KeptReadings(c, rs) == [KeptReading(c, rs[0])] + KeptReadings(c, rs[1..])
  {
  }

  lemma FirstReading(c: Host, buf: Bytes, offset: nat, r: BinReading, rest: Bytes)
    requires ReadingFits(r) && At(buf, offset, EncodeReading(c, r) + rest)
    ensures At(buf, offset + |EncodeReading(c, r)|, rest)
    ensures DecodeReading(c, buf, offset) == Some((KeptReading(c, r), offset + |EncodeReading(c, r)|))
  {
    SplitAt(buf, offset, EncodeReading(c, r), rest);
    ReadingRoundTrip(c, buf, offset, r);
  }

  lemma {:induction false} ReadingsRoundTrip(c: Host, buf: Bytes, offset: nat, rs: seq<BinReading>)
    requires AllFit(rs) && At(buf, offset, EncodeReadings(c, rs))
    ensures DecodeReadings(c, buf, offset, |rs|) == Some(KeptReadings(c, rs))
    decreases |rs|
  {
    if rs != [] {
      FirstReading(c, buf, offset, rs[0], EncodeReadings(c, rs[1..]));
      ReadingsRoundTrip(c, buf, DecodeReading(c, buf, offset).value.1, rs[1..]);
      KeptFirst(c, rs);
    }
  }

  lemma NumbersRead(c: Host, buf: Bytes, p: BinPot)
    requires HeaderFits(p) && At(buf, 0, EncodeNumbers(c, p))
    ensures ReadBe64(buf, 0) == p.timestamp && ReadBe32(buf, 8) == c.float.pack(p.uncertainty)
    ensures buf[12] == p.sources && buf[13] == p.stratum && ReadBe32(buf, 14) == c.float.pack(p.confidence)
  {
    var ts, unc, conf := Be64(p.timestamp), Be32(c.float.pack(p.uncertainty)), Be32(c.float.pack(p.confidence));
    SplitAt(buf, 0, ts + unc + [p.sources] + [p.stratum], conf);
    SplitAt(buf, 0, ts + unc + [p.sources], [p.stratum]);
    SplitAt(buf, 0, ts + unc, [p.sources]);
    SplitAt(buf, 0, ts, unc);
    ReadBe64Of(buf, 0, p.timestamp);
    ReadBe32Of(buf, 8, c.float.pack(p.uncertainty));
    ReadBe32Of(buf, 14, c.float.pack(p.confidence));
    assert buf[12] == buf[12..13][0] && buf[13] == buf[13..14][0];
  }

  lemma CountsRead(buf: Bytes, p: BinPot)
    requires HeaderFits(p) && At(buf, 18, EncodeCounts(p))
    ensures buf[18] == |p.readings| && buf[19] == |p.nonce| && buf[20..20 + |p.nonce|] == p.nonce
    ensures ReadBe64(buf, 20 + |p.nonce|) == p.expiresAt
  {
    SplitAt(buf, 18, [|p.readings|] + [|p.nonce|] + p.nonce, Be64(p.expiresAt));
    SplitAt(buf, 18, [|p.readings|] + [|p.nonce|], p.nonce);
    SplitAt(buf, 18, [|p.readings|], [|p.nonce|]);
    ReadBe64Of(buf, 20 + |p.nonce|, p.expiresAt);
    assert buf[18] == buf[18..19][0] && buf[19] == buf[19..20][0];
  }

  lemma HeaderRoundTrip(c: Host, buf: Bytes, p: BinPot)
    requires HeaderFits(p) && At(buf, 0, EncodeHeader(c, p))
    ensures DecodeHeader(c, buf) == Some(KeptHeader(c, p)) && buf[18] == |p.readings|
  {
    SplitAt(buf, 0, EncodeNumbers(c, p), EncodeCounts(p));
    NumbersRead(c, buf, p);
    CountsRead(buf, p);
  }

  /** Decoding what was encoded gives back the PoT in single precision and without the strata of its readings; bytes
      after it are ignored. */
  lemma RoundTrip(c: Host, p: BinPot, tail: Bytes)
    requires Encodable(p)
    ensures Decode(c, Encode(c, p) + tail) == Some(Kept(c, p))
  {
    var buf, e := Encode(c, p) + tail, EncodeHeader(c, p);
    assert At(buf, 0, Encode(c, p));
    SplitAt(buf, 0, e, EncodeReadings(c, p.readings));
    HeaderRoundTrip(c, buf, p);
    ReadingsRoundTrip(c, buf, |e|, p.readings);
    DecodeJoins(c, buf, p);
  }

  lemma DecodeJoins(c: Host, buf: Bytes, p: BinPot)
    requires DecodeHeader(c, buf) == Some(KeptHeader(c, p)) && buf[18] == |p.readings|
    requires DecodeReadings(c, buf, 28 + |p.nonce|, |p.readings|) == Some(KeptReadings(c, p.readings))
    ensures Decode(c, buf) == Some(Kept(c, p))
  {
  }

  predicate InFloatRange(x: real) {
    -Value(LARGEST) <= x <= Value(LARGEST)
  }

  /** The reading comes back as it was. */
  ghost predicate Exact(c: Host, r: BinReading) {
    r.stratum == None && Representable(r.uncertainty) && c.text(Slot(r.source)) == r.source
  }

  lemma KeptReadingIsSame(c: Host, r: BinReading)
    requires Rounds(c.float) && InFloatRange(r.uncertainty)
    ensures KeptReading(c, r) == r <==> Exact(c, r)
  {
    SurvivesExactly(c.float, r.uncertainty);
  }

  predicate Ascii7(b: Bytes) {
    forall i :: 0 <= i < |b| ==> b[i] < 0x80
  }

  /** ASCII bytes are read as a string of that many units. */
  ghost predicate ReadsAscii(c: Host) {
    forall b: Bytes :: Ascii7(b) ==> c.text(b) == JsText(|b|, b)
  }

  /** An ASCII name comes back. */
  lemma AsciiNameSurvives(c: Host, name: Name)
    requires ReadsAscii(c) && Ascii7(name.utf8) && name.units == |name.utf8|
    ensures c.text(Slot(name)) == name
  {
    assert name.utf8[..name.units] == name.utf8;
  }

  /** The PoT comes back unchanged exactly when no reading states a stratum, all floats are single-precision, and each
      name is what the bytes in its slot read as. */
  lemma UnchangedExactly(c: Host, p: BinPot)
    requires Rounds(c.float) && InFloatRange(p.uncertainty) && InFloatRange(p.confidence)
    requires forall i :: 0 <= i < |p.readings| ==> InFloatRange(p.readings[i].uncertainty)
    ensures Kept(c, p) == p <==>
            && Representable(p.uncertainty) && Representable(p.confidence)
            && forall i :: 0 <= i < |p.readings| ==> Exact(c, p.readings[i])
  {
    SurvivesExactly(c.float, p.uncertainty);
    SurvivesExactly(c.float, p.confidence);
    forall i | 0 <= i < |p.readings|
      ensures KeptReadings(c, p.readings)[i] == p.readings[i] <==> Exact(c, p.readings[i])
    {
      KeptReadingIsSame(c, p.readings[i]);
    }
    if Kept(c, p) == p {
      assert KeptReadings(c, p.readings) == p.readings;
    } else if forall i :: 0 <= i < |p.readings| ==> Exact(c, p.readings[i]) {
      assert KeptReadings(c, p.readings) == p.readings;
    }
  }

  /** A PoT two of three sources answered never comes back unchanged: its confidence is two thirds. */
  lemma TwoOfThreeIsRounded(c: Host, p: BinPot)
    requires Rounds(c.float) && p.confidence == 2.0 / 3.0
    ensures Kept(c, p).confidence != p.confidence
  {
    TwoThirdsIsRounded(c.float);
  }

  // ---- The codec's loops ----

  lemma Associative(a: Bytes, b: Bytes, d: Bytes)
    ensures a + (b + d) == (a + b) + d
  {
  }

  lemma {:induction false} EncodeReadingsAppend(c: Host, rs: seq<BinReading>, r: BinReading)
    requires AllFit(rs) && AllFit(rs + [r]) && ReadingFits(r)
    ensures EncodeReadings(c, rs + [r]) == EncodeReadings(c, rs) + EncodeReading(c, r)
  {
    if rs == [] {
      assert [] + [r] == [r] && [r][1..] == [];
    } else {
      assert (rs + [r])[1..] == rs[1..] + [r];
      EncodeReadingsAppend(c, rs[1..], r);
      Associative(EncodeReading(c, rs[0]), EncodeReadings(c, rs[1..]), EncodeReading(c, r));
    }
  }

  /** The bytes the readings of a list take. */
  function ReadingsSize(rs: seq<BinReading>): nat {
    if rs == [] then 0 else ReadingsSize(rs[..|rs| - 1]) + 13 + rs[|rs| - 1].source.units
  }

  lemma {:induction false} SizeOfReadings(c: Host, rs: seq<BinReading>)
    requires AllFit(rs)
    ensures |EncodeReadings(c, rs)| == ReadingsSize(rs)
  {
    if rs != [] {
      var m := |rs| - 1;
      SizeOfReadings(c, rs[..m]);
      assert rs[..m] + [rs[m]] == rs;
      EncodeReadingsAppend(c, rs[..m], rs[m]);
    }
  }

  lemma {:induction false} SizeGrows(rs: seq<BinReading>, i: nat)
    requires i <= |rs|
    ensures ReadingsSize(rs[..i]) <= ReadingsSize(rs)
  {
    if i == |rs| {
      assert rs[..i] == rs;
    } else {
      var m := |rs| - 1;
      SizeGrows(rs[..m], i);
      assert rs[..m][..i] == rs[..i];
    }
  }

  // ---- Where everything stands ----

  lemma StillAt(a: Bytes, b: Bytes, offset: nat, e: Bytes)
    requires At(a, offset, e)
    ensures At(a + b, offset, e)
  {
  }

  lemma AtEnd(a: Bytes, e: Bytes)
    ensures At(a + e, |a|, e)
  {
  }

  lemma {:induction false} ReadingStands(c: Host, rs: seq<BinReading>, i: nat)
    requires AllFit(rs) && i < |rs|
    ensures At(EncodeReadings(c, rs), ReadingsSize(rs[..i]), EncodeReading(c, rs[i]))
  {
    var m := |rs| - 1;
    assert rs[..m] + [rs[m]] == rs;
    EncodeReadingsAppend(c, rs[..m], rs[m]);
    if i < m {
      assert rs[..m][..i] == rs[..i];
      ReadingStands(c, rs[..m], i);
      StillAt(EncodeReadings(c, rs[..m]), EncodeReading(c, rs[m]), ReadingsSize(rs[..i]), EncodeReading(c, rs[i]));
    } else {
      SizeOfReadings(c, rs[..m]);
      AtEnd(EncodeReadings(c, rs[..m]), EncodeReading(c, rs[m]));
    }
  }

  /** The header of the binary form, byte by byte. */
  predicate HeaderStands(c: Host, p: BinPot, b: Bytes)
    requires |b| >= 28 + |p.nonce|
  {
    var n := |p.nonce|;
    && Big64(b, 0) == p.timestamp && Big32(b, 8) == c.float.pack(p.uncertainty)
    && b[12] == p.sources && b[13] == p.stratum && Big32(b, 14) == c.float.pack(p.confidence)
    && b[18] == |p.readings| && b[19] == n && b[20..20 + n] == p.nonce && Big64(b, 20 + n) == p.expiresAt
  }

  lemma HeaderBytes(c: Host, p: BinPot)
    requires Encodable(p)
    ensures |Encode(c, p)| == 28 + |p.nonce| + ReadingsSize(p.readings) && HeaderStands(c, p, Encode(c, p))
  {
    var b := Encode(c, p);
    SizeOfReadings(c, p.readings);
    HeaderAt(c, p, EncodeReadings(c, p.readings));
    NumbersRead(c, b, p);
    CountsRead(b, p);
    ReadsArePositional(b, 0);
    ReadsArePositional(b, 8);
    ReadsArePositional(b, 14);
    ReadsArePositional(b, 20 + |p.nonce|);
  }

  lemma HeaderAt(c: Host, p: BinPot, rest: Bytes)
    requires HeaderFits(p)
    ensures At(EncodeHeader(c, p) + rest, 0, EncodeNumbers(c, p)) && At(EncodeHeader(c, p) + rest, 18, EncodeCounts(p))
  {
    StillAt(EncodeHeader(c, p), rest, 0, EncodeHeader(c, p));
    SplitAt(EncodeHeader(c, p) + rest, 0, EncodeNumbers(c, p), EncodeCounts(p));
  }

  /** The bytes of a reading: the length of its name, the name, time and uncertainty. */
  predicate PartsStandAt(b: Bytes, o: nat, name: Bytes, timestamp: int, bits: int) {
    var n := |name|;
    && o + 13 + n <= |b| && b[o] == n && b[o + 1..o + 1 + n] == name
    && Big64(b, o + 1 + n) == timestamp && Big32(b, o + 9 + n) == bits
  }

  lemma PartsBytes(b: Bytes, o: nat, name: Bytes, timestamp: u64, bits: u32)
    requires IsU8(|name|) && At(b, o, EncodeParts(name, timestamp, bits))
    ensures PartsStandAt(b, o, name, timestamp, bits)
  {
    PartsStand(b, o, name, timestamp, bits);
    ReadsArePositional(b, o + 1 + |name|);
    ReadIsPositional(b, o + 9 + |name|);
  }

  lemma BehindHeader(whole: Bytes, header: Bytes, rest: Bytes, o: nat, place: nat, name: Bytes, timestamp: u64,
      bits: u32)
    requires whole == header + rest && place == |header| + o
    requires IsU8(|name|) && At(rest, o, EncodeParts(name, timestamp, bits))
    ensures PartsStandAt(whole, place, name, timestamp, bits)
  {
    Behind(header, rest, o, EncodeParts(name, timestamp, bits));
    PartsBytes(whole, place, name, timestamp, bits);
  }

  /** Reading i of the encoded PoT stands at this offset, its name cut to as many bytes as the string has units. */
  predicate ReadingStandsAt(c: Host, p: BinPot, i: nat, b: Bytes, o: nat)
    requires i < |p.readings|
  {
    var r := p.readings[i];
    PartsStandAt(b, o, r.source.utf8[..r.source.units], r.timestamp, c.float.pack(r.uncertainty))
  }

  lemma IsReading(c: Host, p: BinPot, i: nat, b: Bytes, o: nat)
    requires i < |p.readings|
    requires var r := p.readings[i];
             PartsStandAt(b, o, Slot(r.source), r.timestamp, c.float.pack(r.uncertainty))
    ensures ReadingStandsAt(c, p, i, b, o)
  {
  }

  /** Each reading stands behind the header and the readings before it, of which each takes 13 bytes and its name. */
  lemma ReadingBytes(c: Host, p: BinPot, i: nat) returns (b: Bytes, o: nat)
    requires Encodable(p) && i < |p.readings|
    ensures b == Encode(c, p) && o == 28 + |p.nonce| + ReadingsSize(p.readings[..i])
    ensures ReadingStandsAt(c, p, i, b, o)
    ensures ReadingsSize(p.readings[..i + 1]) == ReadingsSize(p.readings[..i]) + 13 + p.readings[i].source.units
  {
    var r := p.readings[i];
    b, o := Encode(c, p), 28 + |p.nonce| + ReadingsSize(p.readings[..i]);
    NextSize(p.readings, i);
    ReadingStands(c, p.readings, i);
    BehindHeader(b, EncodeHeader(c, p), EncodeReadings(c, p.readings), ReadingsSize(p.readings[..i]), o, Slot(r.source),
        r.timestamp, c.float.pack(r.uncertainty));
    IsReading(c, p, i, b, o);
  }

  lemma Behind(a: Bytes, b: Bytes, offset: nat, e: Bytes)
    requires At(b, offset, e)
    ensures At(a + b, |a| + offset, e)
  {
    assert (a + b)[|a| + offset..|a| + offset + |e|] == b[offset..offset + |e|];
  }

  /** The buffer holds n readings from this offset on. */
  predicate HoldsReadings(b: Bytes, offset: nat, n: nat)
    decreases n
  {
    n == 0 || (offset < |b| && offset + 13 + (b[offset] as nat) <= |b|
               && HoldsReadings(b, offset + 13 + (b[offset] as nat), n - 1))
  }

  lemma {:induction false} ReadingsAccepted(c: Host, b: Bytes, offset: nat, n: nat)
    ensures DecodeReadings(c, b, offset, n).Some? <==> HoldsReadings(b, offset, n)
    decreases n
  {
    if n > 0 && offset < |b| && offset + 13 + (b[offset] as nat) <= |b| {
      ReadingsAccepted(c, b, offset + 13 + (b[offset] as nat), n - 1);
    }
  }

  /** The decoder throws exactly when the header, the nonce or one of the announced readings runs past the end. */
  lemma DecodeAccepts(c: Host, b: Bytes)
    ensures Decode(c, b).Some? <==>
      |b| >= 20 && |b| >= 28 + (b[19] as nat) && HoldsReadings(b, 28 + (b[19] as nat), b[18])
  {
    if |b| >= 20 && |b| >= 28 + (b[19] as nat) {
      ReadingsAccepted(c, b, 28 + (b[19] as nat), b[18]);
    }
  }

  /** The loop that adds up the size of the buffer. */
  method BufferSize(p: BinPot) returns (size: nat)
    ensures size == 28 + |p.nonce| + ReadingsSize(p.readings)
  {
    size := 19 + 1 + |p.nonce| + 8;
    for i := 0 to |p.readings|
      invariant size == 28 + |p.nonce| + ReadingsSize(p.readings[..i])
    {
      NextSize(p.readings, i);
      size := size + 1 + p.readings[i].source.units + 8 + 4;
    }
    assert p.readings[..|p.readings|] == p.readings;
  }

  /** One write at the offset, which moves past it. */
  method Put(buf: array<byte>, offset: nat, b: Bytes) returns (next: nat)
    requires offset + |b| <= buf.Length
    modifies buf
    ensures next == offset + |b|
    ensures buf[..next] == old(buf[..offset]) + b
  {
    for i := 0 to |b|
      invariant buf[..offset] == old(buf[..offset])
      invariant buf[offset..offset + i] == b[..i]
    {
      buf[offset + i] := b[i];
      assert buf[offset..offset + i + 1] == buf[offset..offset + i] + [b[i]];
      assert b[..i + 1] == b[..i] + [b[i]];
    }
    next := offset + |b|;
    assert buf[..next] == buf[..offset] + buf[offset..next];
    assert b[..|b|] == b;
  }

  /** The first fields of the header; a write throws where its value does not fit. */
  method SerializeNumbers(c: Host, p: BinPot, buf: array<byte>) returns (r: Result<nat, CodecError>)
    requires 18 <= buf.Length
    modifies buf
    ensures r.Success? <==> IsU64(p.timestamp) && IsU8(p.sources) && IsU8(p.stratum)
    ensures r.Success? ==> r.value == 18
    ensures HeaderFits(p) ==> buf[..18] == EncodeNumbers(c, p)
  {
    if !IsU64(p.timestamp) {
      return Failure(RangeError);
    }
    var offset := Put(buf, 0, Be64(p.timestamp));
    offset := Put(buf, offset, Be32(c.float.pack(p.uncertainty)));
    if !IsU8(p.sources) || !IsU8(p.stratum) {
      return Failure(RangeError);
    }
    offset := Put(buf, offset, [p.sources]);
    offset := Put(buf, offset, [p.stratum]);
    offset := Put(buf, offset, Be32(c.float.pack(p.confidence)));
    return Success(offset);
  }

  /** The other fields of the header. */
  method SerializeCounts(p: BinPot, buf: array<byte>, start: nat) returns (r: Result<nat, CodecError>)
    requires start + 10 + |p.nonce| <= buf.Length
    modifies buf
    ensures r.Success? <==> IsU8(|p.readings|) && IsU8(|p.nonce|) && IsU64(p.expiresAt)
    ensures r.Success? ==> r.value == start + 10 + |p.nonce|
    ensures HeaderFits(p) ==> buf[..start + 10 + |p.nonce|] == old(buf[..start]) + EncodeCounts(p)
  {
    if !IsU8(|p.readings|) || !IsU8(|p.nonce|) {
      return Failure(RangeError);
    }
    ghost var before := buf[..start];
    var offset := Put(buf, start, [|p.readings|]);
    offset := Put(buf, offset, [|p.nonce|]);
    offset := Put(buf, offset, p.nonce);
    if !IsU64(p.expiresAt) {
      return Failure(RangeError);
    }
    offset := Put(buf, offset, Be64(p.expiresAt));
    Regroup(before, [|p.readings|], [|p.nonce|], p.nonce, Be64(p.expiresAt));
    return Success(offset);
  }

  /** Buffer.write of a name: all its UTF-8 bytes as far as the buffer goes. The offset moves by the length of the
      string, so bytes beyond that are overwritten by the fields that follow. */
  method PutName(buf: array<byte>, offset: nat, name: Name) returns (next: nat)
    requires offset + name.units <= buf.Length
    modifies buf
    ensures next == offset + name.units
    ensures buf[..next] == old(buf[..offset]) + Slot(name)
  {
    var room := buf.Length - offset;
    var written := Put(buf, offset, name.utf8[..if |name.utf8| < room then |name.utf8| else room]);
    next := offset + name.units;
    assert buf[..next] == buf[..written][..next];
  }

  method SerializeReading(c: Host, r: BinReading, buf: array<byte>, start: nat) returns (next: Result<nat, CodecError>)
    requires start + 13 + r.source.units <= buf.Length
    modifies buf
    ensures next.Success? <==> ReadingFits(r)
    ensures next.Success? ==>
      next.value == start + 13 + r.source.units && buf[..next.value] == old(buf[..start]) + EncodeReading(c, r)
  {
    if !IsU8(r.source.units) {
      return Failure(RangeError);
    }
    ghost var before := buf[..start];
    var offset := Put(buf, start, [r.source.units]);
    offset := PutName(buf, offset, r.source);
    if !IsU64(r.timestamp) {
      return Failure(RangeError);
    }
    offset := Put(buf, offset, Be64(r.timestamp));
    offset := Put(buf, offset, Be32(c.float.pack(r.uncertainty)));
    Regroup(before, [r.source.units], Slot(r.source), Be64(r.timestamp), Be32(c.float.pack(r.uncertainty)));
    return Success(offset);
  }

  lemma Regroup(a: Bytes, b: Bytes, d: Bytes, e: Bytes, f: Bytes)
    ensures a + b + d + e + f == a + (b + d + e + f)
  {
  }

  lemma NextSize(rs: seq<BinReading>, i: nat)
    requires i < |rs|
    ensures ReadingsSize(rs[..i + 1]) == ReadingsSize(rs[..i]) + 13 + rs[i].source.units
  {
    assert rs[..i + 1][..i] == rs[..i];
  }

  lemma NextReading(c: Host, rs: seq<BinReading>, i: nat)
    requires i < |rs| && AllFit(rs[..i]) && ReadingFits(rs[i])
    ensures AllFit(rs[..i + 1]) && EncodeReadings(c, rs[..i + 1]) == EncodeReadings(c, rs[..i])
      + EncodeReading(c, rs[i])
  {
    assert rs[..i + 1] == rs[..i] + [rs[i]];
    EncodeReadingsAppend(c, rs[..i], rs[i]);
  }

  /** The loop over the readings; a write throws where a value does not fit. */
  method SerializeReadings(c: Host, rs: seq<BinReading>, buf: array<byte>, start: nat)
      returns (r: Result<nat, CodecError>)
    requires start + ReadingsSize(rs) <= buf.Length
    modifies buf
    ensures r.Success? <==> AllFit(rs)
    ensures r.Success? ==>
              r.value == start + ReadingsSize(rs) && buf[..r.value] == old(buf[..start]) + EncodeReadings(c, rs)
  {
    ghost var before := buf[..start];
    var offset := start;
    SizeGrows(rs, 0);
    for i := 0 to |rs|
      invariant AllFit(rs[..i])
      invariant offset == start + ReadingsSize(rs[..i]) <= buf.Length
      invariant buf[..offset] == before + EncodeReadings(c, rs[..i])
    {
      SizeGrows(rs, i + 1);
      NextSize(rs, i);
      var next := SerializeReading(c, rs[i], buf, offset);
      if next.Failure? {
        return Failure(RangeError);
      }
      NextReading(c, rs, i);
      Associative(before, EncodeReadings(c, rs[..i]), EncodeReading(c, rs[i]));
      offset := next.value;
    }
    assert rs[..|rs|] == rs;
    return Success(offset);
  }

  method SerializeHeader(c: Host, p: BinPot, buf: array<byte>) returns (r: Result<nat, CodecError>)
    requires 28 + |p.nonce| <= buf.Length
    modifies buf
    ensures r.Success? <==> HeaderFits(p)
    ensures r.Success? ==> r.value == 28 + |p.nonce| && buf[..r.value] == EncodeHeader(c, p)
  {
    var counts := SerializeNumbers(c, p, buf);
    if counts.Failure? {
      return Failure(RangeError);
    }
    r := SerializeCounts(p, buf, counts.value);
  }

  /** serializeToBinary. */
  method SerializeToBinary(c: Host, p: BinPot) returns (r: Result<Bytes, CodecError>)
    ensures r.Success? <==> Encodable(p)
    ensures r.Success? ==> r.value == Encode(c, p)
  {
    var size := BufferSize(p);
    var buf := new byte[size](_ => 0);
    var start := SerializeHeader(c, p, buf);
    if start.Failure? {
      return Failure(RangeError);
    }
    var end := SerializeReadings(c, p.readings, buf, start.value);
    if end.Failure? {
      return Failure(RangeError);
    }
    return Success(buf[..]);
  }

  /** Joins readings already decoded with those still to come. */
  function Joined(done: seq<BinReading>, rest: Option<seq<BinReading>>): Option<seq<BinReading>> {
    if rest.None? then None else Some(done + rest.value)
  }

  lemma JoinedStep(c: Host, buf: Bytes, offset: nat, n: nat, done: seq<BinReading>, first: BinReading, next: nat)
    requires n > 0 && DecodeReading(c, buf, offset) == Some((first, next))
    ensures Joined(done, DecodeReadings(c, buf, offset, n))
         == Joined(done + [first], DecodeReadings(c, buf, next, n - 1))
  {
    var rest := DecodeReadings(c, buf, next, n - 1);
    assert rest.Some? ==> done + ([first] + rest.value) == (done + [first]) + rest.value;
  }

  lemma JoinedNone(c: Host, buf: Bytes, offset: nat, n: nat, done: seq<BinReading>)
    requires n > 0 && DecodeReading(c, buf, offset) == None
    ensures Joined(done, DecodeReadings(c, buf, offset, n)) == None
  {
  }

  /** Buffer.toString, which stops at the end of the buffer. */
  function Clamped(buf: Bytes, start: nat, n: nat): Bytes
    requires start <= |buf|
  {
    buf[start..if start + n <= |buf| then start + n else |buf|]
  }

  /** The header by a moving offset. The text read stops at the end of the buffer, the number reads throw. */
  method DeserializeHeader(c: Host, buf: Bytes) returns (r: Result<(BinPot, nat, nat), CodecError>)
    ensures r.Success? <==> DecodeHeader(c, buf).Some?
    ensures r.Success? ==> r.value == (DecodeHeader(c, buf).value, buf[18], 28 + |DecodeHeader(c, buf).value.nonce|)
  {
    var offset := 0;
    if |buf| < offset + 8 {
      return Failure(RangeError);
    }
    var timestamp := ReadBe64(buf, offset);
    offset := offset + 8;
    if |buf| < offset + 4 {
      return Failure(RangeError);
    }
    var uncertainty := c.float.unpack(ReadBe32(buf, offset));
    offset := offset + 4;
    if |buf| < offset + 2 {
      return Failure(RangeError);
    }
    var sources := buf[offset];
    offset := offset + 1;
    var stratum := buf[offset];
    offset := offset + 1;
    if |buf| < offset + 4 {
      return Failure(RangeError);
    }
    var confidence := c.float.unpack(ReadBe32(buf, offset));
    offset := offset + 4;
    if |buf| < offset + 2 {
      return Failure(RangeError);
    }
    var sigCount: nat := buf[offset];
    offset := offset + 1;
    var nonceLen: nat := buf[offset];
    offset := offset + 1;
    var nonce := Clamped(buf, offset, nonceLen);
    offset := offset + nonceLen;
    if |buf| < offset + 8 {
      return Failure(RangeError);
    }
    var expiresAt := ReadBe64(buf, offset);
    offset := offset + 8;
    return Success((BinPot(timestamp, uncertainty, sources, stratum, confidence, [], nonce, expiresAt), sigCount,
        offset));
  }

  /** One turn of the loop over the readings. */
  method DeserializeReading(c: Host, buf: Bytes, start: nat) returns (r: Option<(BinReading, nat)>)
    ensures r == DecodeReading(c, buf, start)
  {
    var offset := start;
    if |buf| < offset + 1 {
      return None;
    }
    var nameLen: nat := buf[offset];
    offset := offset + 1;
    var source := Clamped(buf, offset, nameLen);
    offset := offset + nameLen;
    if |buf| < offset + 8 {
      return None;
    }
    var ts := ReadBe64(buf, offset);
    offset := offset + 8;
    if |buf| < offset + 4 {
      return None;
    }
    var unc := c.float.unpack(ReadBe32(buf, offset));
    offset := offset + 4;
    return Some((BinReading(c.text(source), ts, unc, None), offset));
  }

  /** The loop over the readings. */
  method DeserializeReadings(c: Host, buf: Bytes, start: nat, sigCount: nat) returns (r: Option<seq<BinReading>>)
    ensures r == DecodeReadings(c, buf, start, sigCount)
  {
    var offset := start;
    var readings: seq<BinReading> := [];
    ghost var all := DecodeReadings(c, buf, start, sigCount);
    assert all.Some? ==> [] + all.value == all.value;
    for i := 0 to sigCount
      invariant all == Joined(readings, DecodeReadings(c, buf, offset, sigCount - i))
    {
      var next := DeserializeReading(c, buf, offset);
      if next.None? {
        JoinedNone(c, buf, offset, sigCount - i, readings);
        return None;
      }
      var (reading, end) := next.value;
      JoinedStep(c, buf, offset, sigCount - i, readings, reading, end);
      readings := readings + [reading];
      offset := end;
    }
    assert readings + [] == readings;
    return Some(readings);
  }

  /** deserializeFromBinary: an offset moves through header and readings; a read past the end throws. */
  method DeserializeFromBinary(c: Host, buf: Bytes) returns (r: Result<BinPot, CodecError>)
    ensures r.Success? <==> Decode(c, buf).Some?
    ensures r.Success? ==> r.value == Decode(c, buf).value
  {
    var header := DeserializeHeader(c, buf);
    if header.Failure? {
      return Failure(RangeError);
    }
    var (pot, sigCount, start) := header.value;
    var readings := DeserializeReadings(c, buf, start, sigCount);
    if readings.None? {
      return Failure(RangeError);
    }
    return Success(pot.(readings := readings.value));
  }
}
