/**
 The Roughtime tag/length/value messages: the builder and parser of
 src/roughtime_source.ts and the parser of src/roughtime/wire.rs.

 A message is a header of 2n little-endian words (the count n, the n - 1 value
 offsets after the first, the n tags) followed by the values.
*/
module Tlv {
  import opened Wrappers
  import opened ByteOrder

  datatype Field = Field(tag: u32, value: Bytes)

  datatype TlvError = RangeError

  // ---- Layout ----

  /** Where value i starts, counted from the end of the header. */
  function Offset(fields: seq<Field>, i: nat): nat
    requires i <= |fields|
  {
    if i == 0 then 0 else Offset(fields, i - 1) + |fields[i - 1].value|
  }

  function Values(fields: seq<Field>, i: nat): (b: Bytes)
    requires i <= |fields|
    ensures |b| == Offset(fields, i)
  {
    if i == 0 then [] else Values(fields, i - 1) + fields[i - 1].value
  }

  /** Little-endian 32-bit words, end to end. */
  function Words(ws: seq<nat>): (b: Bytes)
    ensures |b| == 4 * |ws|
  {
    if ws == [] then [] else Words(ws[..|ws| - 1]) + Le32(ws[|ws| - 1])
  }

  /** The count and every offset the builder writes fit in 32 bits. */
  predicate Fits(fields: seq<Field>) {
    && |fields| < TWO_32
    && (fields != [] ==> Offset(fields, |fields| - 1) < TWO_32)
  }

  lemma {:induction false} OffsetMonotone(fields: seq<Field>, i: nat, j: nat)
    requires i <= j <= |fields|
    ensures Offset(fields, i) <= Offset(fields, j)
  {
    if i < j {
      OffsetMonotone(fields, i, j - 1);
    }
  }

  function HeaderWord(fields: seq<Field>, k: nat): nat
    requires k < 2 * |fields|
  {
    var n := |fields|;
    if k == 0 then n else if k < n then Offset(fields, k) else fields[k - n].tag
  }

  function Header(fields: seq<Field>): (ws: seq<nat>)
    ensures |ws| == 2 * |fields|
  {
    seq(2 * |fields|, k requires 0 <= k < 2 * |fields| => HeaderWord(fields, k))
  }

  /** The message a field list stands for. */
  function Encode(fields: seq<Field>): (b: Bytes) {
    if fields == [] then Le32(0) else Words(Header(fields)) + Values(fields, |fields|)
  }

  // ---- Reading a buffer ----

  function WordAt(buf: Bytes, k: nat): u32
    requires 4 * k + 4 <= |buf|
  {
    ReadLe32(buf, 4 * k)
  }

  /** The buffer holds the header its first word announces. */
  predicate HasHeader(buf: Bytes) {
    4 <= |buf| && 8 * WordAt(buf, 0) <= |buf|
  }

  function Count(buf: Bytes): nat
    requires HasHeader(buf)
  {
    WordAt(buf, 0)
  }

  /** Where value i starts in the buffer; the last one runs to the end. */
  function Start(buf: Bytes, i: nat): nat
    requires HasHeader(buf) && Count(buf) > 0 && i <= Count(buf)
  {
    var n := Count(buf);
    if i == n then |buf| else 8 * n + (if i == 0 then 0 else WordAt(buf, i))
  }

  /** Value i lies inside the buffer and does not end before it starts. */
  predicate InBounds(buf: Bytes, i: nat)
    requires HasHeader(buf) && i < Count(buf)
  {
    Start(buf, i) <= Start(buf, i + 1) <= |buf|
  }

  predicate AllInBounds(buf: Bytes, n: nat)
    requires HasHeader(buf) && n <= Count(buf)
  {
    forall i :: 0 <= i < n ==> InBounds(buf, i)
  }

  /** The buffers the TypeScript parser accepts, apart from the empty message. */
  predicate WellFormed(buf: Bytes) {
    HasHeader(buf) && Count(buf) > 0 && AllInBounds(buf, Count(buf))
  }

  function FieldAt(buf: Bytes, i: nat): Field
    requires HasHeader(buf) && i < Count(buf) && InBounds(buf, i)
  {
    Field(WordAt(buf, Count(buf) + i), buf[Start(buf, i)..Start(buf, i + 1)])
  }

  /** The field at place i; None when that place is out of bounds. */
  function Cut(buf: Bytes, i: nat): Option<Field>
    requires HasHeader(buf) && i < Count(buf)
  {
    if InBounds(buf, i) then Some(FieldAt(buf, i)) else None
  }

  function Cuts(buf: Bytes): (cuts: seq<Option<Field>>)
    requires HasHeader(buf)
    ensures |cuts| == Count(buf)
  {
    seq(Count(buf), i requires 0 <= i < Count(buf) => Cut(buf, i))
  }

  /** The fields among the first n cuts. */
  function Kept(cuts: seq<Option<Field>>, n: nat): seq<Field>
    requires n <= |cuts|
  {
    if n == 0 then []
    else
      match cuts[n - 1]
      case Some(f) => Kept(cuts, n - 1) + [f]
      case None => Kept(cuts, n - 1)
  }

  /** The fields that lie inside the buffer. The Rust parser drops the others; the TypeScript parser refuses a message
      that has others. */
  function Fields(buf: Bytes): seq<Field>
    requires HasHeader(buf)
  {
    Kept(Cuts(buf), Count(buf))
  }

  /** The map the parsers build: a repeated tag keeps its last value. */
  function ToMap(fields: seq<Field>): map<u32, Bytes> {
    if fields == [] then map[]
    else ToMap(fields[..|fields| - 1])[fields[|fields| - 1].tag := fields[|fields| - 1].value]
  }

  /** What the TypeScript parser returns; None is its null. */
  function Parse(buf: Bytes): Option<map<u32, Bytes>> {
    if |buf| < 4 then None
    else if WordAt(buf, 0) == 0 then Some(map[])
    else if WellFormed(buf) then Some(ToMap(Fields(buf)))
    else None
  }

  lemma ToMapAppend(fields: seq<Field>, f: Field)
    ensures ToMap(fields + [f]) == ToMap(fields)[f.tag := f.value]
  {
    assert (fields + [f])[..|fields|] == fields;
  }

  function Inserted(m: map<u32, Bytes>, cut: Option<Field>): map<u32, Bytes> {
    match cut
    case Some(f) => m[f.tag := f.value]
    case None => m
  }

  lemma InsertNext(cuts: seq<Option<Field>>, i: nat)
    requires i < |cuts|
    ensures |Kept(cuts, i + 1)| == |Kept(cuts, i)| + (if cuts[i].Some? then 1 else 0)
    ensures ToMap(Kept(cuts, i + 1)) == Inserted(ToMap(Kept(cuts, i)), cuts[i])
  {
    if cuts[i].Some? {
      ToMapAppend(Kept(cuts, i), cuts[i].value);
    }
  }

  lemma {:induction false} KeepsAll(cuts: seq<Option<Field>>, n: nat)
    requires n <= |cuts| && forall k :: 0 <= k < n ==> cuts[k].Some?
    ensures |Kept(cuts, n)| == n && forall k :: 0 <= k < n ==> cuts[k] == Some(Kept(cuts, n)[k])
  {
    if n > 0 {
      KeepsAll(cuts, n - 1);
    }
  }

  lemma {:induction false} KeepsAtMost(cuts: seq<Option<Field>>, i: nat, n: nat)
    requires i <= n <= |cuts|
    ensures |Kept(cuts, n)| <= |Kept(cuts, i)| + n - i
  {
    if i < n {
      KeepsAtMost(cuts, i, n - 1);
    }
  }

  /** A message announces as many fields as lie inside the buffer exactly when all of them do. */
  lemma NoneDropped(buf: Bytes)
    requires HasHeader(buf)
    ensures |Fields(buf)| == Count(buf) <==> AllInBounds(buf, Count(buf))
  {
    var cuts := Cuts(buf);
    if AllInBounds(buf, Count(buf)) {
      assert forall k :: 0 <= k < |cuts| ==> InBounds(buf, k) && cuts[k] == Cut(buf, k);
      KeepsAll(cuts, |cuts|);
    } else {
      var i :| 0 <= i < Count(buf) && !InBounds(buf, i);
      assert cuts[i] == None;
      KeepsAtMost(cuts, 0, i);
      KeepsAtMost(cuts, i + 1, |cuts|);
    }
  }

  lemma FieldsInBounds(buf: Bytes)
    requires WellFormed(buf)
    ensures |Fields(buf)| == Count(buf)
    ensures forall k {:trigger FieldAt(buf, k)} :: 0 <= k < Count(buf) ==>
      InBounds(buf, k) && Fields(buf)[k] == FieldAt(buf, k)
  {
    var cuts := Cuts(buf);
    assert forall k :: 0 <= k < |cuts| ==> InBounds(buf, k) && cuts[k] == Cut(buf, k);
    KeepsAll(cuts, |cuts|);
  }

  lemma FieldsAre(buf: Bytes, fields: seq<Field>)
    requires HasHeader(buf) && Count(buf) == |fields|
    requires forall k :: 0 <= k < |fields| ==> InBounds(buf, k) && FieldAt(buf, k) == fields[k]
    ensures Fields(buf) == fields
  {
    var cuts := Cuts(buf);
    assert forall k :: 0 <= k < |cuts| ==> cuts[k] == Cut(buf, k) == Some(fields[k]);
    KeepsAll(cuts, |cuts|);
  }

  // ---- Words and values at their places ----

  lemma {:induction false} WordsAt(ws: seq<nat>, rest: Bytes, k: nat)
    requires k < |ws|
    ensures ws[k] < TWO_32 ==> ReadLe32(Words(ws) + rest, 4 * k) == ws[k]
  {
    var m := |ws| - 1;
    if k == m {
      assert forall i :: 0 <= i < 4 ==> (Words(ws) + rest)[4 * m + i] == Le32(ws[m])[i];
    } else {
      WordsAt(ws[..m], Le32(ws[m]) + rest, k);
      assert Words(ws) + rest == Words(ws[..m]) + (Le32(ws[m]) + rest);
    }
  }

  /** Reading m words and writing them back gives the same bytes. */
  lemma {:induction false} WordsOfPrefix(buf: Bytes, ws: seq<nat>)
    requires 4 * |ws| <= |buf|
    requires forall k :: 0 <= k < |ws| ==> ws[k] == WordAt(buf, k)
    ensures Words(ws) == buf[..4 * |ws|]
  {
    if ws != [] {
      var m := |ws| - 1;
      WordsOfPrefix(buf, ws[..m]);
      Le32Unread(buf, 4 * m);
      assert buf[..4 * m] + buf[4 * m..4 * m + 4] == buf[..4 * m + 4];
    }
  }

  lemma SliceOfFirst(a: Bytes, b: Bytes, i: nat, j: nat)
    requires i <= j <= |a|
    ensures (a + b)[i..j] == a[i..j]
  {
  }

  lemma SliceOfSecond(a: Bytes, b: Bytes)
    ensures (a + b)[|a|..|a| + |b|] == b
  {
  }

  lemma {:induction false} ValueAt(fields: seq<Field>, n: nat, i: nat)
    requires i < n <= |fields|
    ensures Offset(fields, i) <= Offset(fields, i + 1) <= Offset(fields, n)
    ensures Values(fields, n)[Offset(fields, i)..Offset(fields, i + 1)] == fields[i].value
  {
    OffsetMonotone(fields, i + 1, n);
    var before, last := Values(fields, n - 1), fields[n - 1].value;
    if i + 1 < n {
      OffsetMonotone(fields, i + 1, n - 1);
      ValueAt(fields, n - 1, i);
      SliceOfFirst(before, last, Offset(fields, i), Offset(fields, i + 1));
    } else {
      SliceOfSecond(before, last);
    }
  }

  lemma {:induction false} OffsetsTile(buf: Bytes, fields: seq<Field>, i: nat)
    requires HasHeader(buf) && Count(buf) == |fields| > 0 && i <= |fields|
    requires forall k :: 0 <= k < |fields| ==> InBounds(buf, k) && fields[k] == FieldAt(buf, k)
    ensures 8 * |fields| + Offset(fields, i) == Start(buf, i) <= |buf|
  {
    if i > 0 {
      OffsetsTile(buf, fields, i - 1);
      assert InBounds(buf, i - 1) && fields[i - 1] == FieldAt(buf, i - 1);
    }
  }

  predicate CutsOut(buf: Bytes, i: nat, j: nat, b: Bytes) {
    i <= j <= |buf| && b == buf[i..j]
  }

  lemma CutsMeet(buf: Bytes, i: nat, j: nat, k: nat, a: Bytes, b: Bytes)
    requires CutsOut(buf, i, j, a) && CutsOut(buf, j, k, b)
    ensures CutsOut(buf, i, k, a + b)
  {
    assert buf[i..j] + buf[j..k] == buf[i..k];
  }

  lemma FieldCutsOut(buf: Bytes, i: nat, f: Field)
    requires HasHeader(buf) && i < Count(buf) && InBounds(buf, i) && f == FieldAt(buf, i)
    ensures CutsOut(buf, Start(buf, i), Start(buf, i + 1), f.value)
  {
  }

  lemma {:induction false} ValuesTile(buf: Bytes, fields: seq<Field>, i: nat)
    requires HasHeader(buf) && Count(buf) == |fields| > 0 && i <= |fields|
    requires forall k {:trigger fields[k]} :: 0 <= k < |fields| ==>
      CutsOut(buf, Start(buf, k), Start(buf, k + 1), fields[k].value)
    ensures CutsOut(buf, 8 * |fields|, Start(buf, i), Values(fields, i))
  {
    if i > 0 {
      ValuesTile(buf, fields, i - 1);
      var value := fields[i - 1].value;
      CutsMeet(buf, 8 * |fields|, Start(buf, i - 1), Start(buf, i), Values(fields, i - 1), value);
    }
  }

  /** The fields read from an accepted buffer tile its tail, from the end of the header on. */
  lemma FieldsTile(buf: Bytes, fields: seq<Field>, i: nat)
    requires HasHeader(buf) && Count(buf) == |fields| > 0 && i <= |fields|
    requires forall k :: 0 <= k < |fields| ==> InBounds(buf, k) && fields[k] == FieldAt(buf, k)
    ensures 8 * |fields| + Offset(fields, i) == Start(buf, i) <= |buf|
    ensures Values(fields, i) == buf[8 * |fields|..Start(buf, i)]
  {
    OffsetsTile(buf, fields, i);
    forall k {:trigger fields[k]} | 0 <= k < |fields|
      ensures CutsOut(buf, Start(buf, k), Start(buf, k + 1), fields[k].value)
    {
      FieldCutsOut(buf, k, fields[k]);
    }
    ValuesTile(buf, fields, i);
  }

  // ---- The encoding is a bijection ----

  lemma EncodedLength(fields: seq<Field>)
    requires fields != []
    ensures |Encode(fields)| == 8 * |fields| + Offset(fields, |fields|)
  {
  }

  lemma HeaderReadsBack(fields: seq<Field>, k: nat)
    requires fields != [] && Fits(fields) && k < 2 * |fields|
    ensures |Encode(fields)| == 8 * |fields| + Offset(fields, |fields|)
    ensures HasHeader(Encode(fields)) && Count(Encode(fields)) == |fields|
    ensures WordAt(Encode(fields), k) == HeaderWord(fields, k)
  {
    WordsAt(Header(fields), Values(fields, |fields|), 0);
    WordsAt(Header(fields), Values(fields, |fields|), k);
    if 0 < k < |fields| {
      OffsetMonotone(fields, k, |fields| - 1);
    }
  }

  lemma StartsReadBack(fields: seq<Field>, i: nat)
    requires fields != [] && Fits(fields) && i <= |fields|
    ensures HasHeader(Encode(fields)) && Count(Encode(fields)) == |fields|
    ensures Start(Encode(fields), i) == 8 * |fields| + Offset(fields, i)
  {
    HeaderReadsBack(fields, if i < |fields| then i else 0);
  }

  lemma ValueReadsBack(fields: seq<Field>, i: nat)
    requires i < |fields|
    ensures Offset(fields, i) <= Offset(fields, i + 1) <= Offset(fields, |fields|)
    ensures Encode(fields)[8 * |fields| + Offset(fields, i)..8 * |fields| + Offset(fields, i + 1)] == fields[i].value
  {
    var h, v := Words(Header(fields)), Values(fields, |fields|);
    ValueAt(fields, |fields|, i);
    assert (h + v)[|h| + Offset(fields, i)..|h| + Offset(fields, i + 1)] == v[Offset(fields, i)..Offset(fields, i + 1)];
  }

  lemma BoundsReadBack(fields: seq<Field>, i: nat)
    requires fields != [] && Fits(fields) && i < |fields|
    ensures HasHeader(Encode(fields)) && Count(Encode(fields)) == |fields|
    ensures InBounds(Encode(fields), i)
  {
    HeaderReadsBack(fields, 0);
    StartsReadBack(fields, i);
    StartsReadBack(fields, i + 1);
    ValueReadsBack(fields, i);
  }

  lemma ValueStands(fields: seq<Field>, i: nat)
    requires fields != [] && Fits(fields) && i < |fields|
    requires HasHeader(Encode(fields)) && Count(Encode(fields)) == |fields| && InBounds(Encode(fields), i)
    ensures Encode(fields)[Start(Encode(fields), i)..Start(Encode(fields), i + 1)] == fields[i].value
  {
    StartsReadBack(fields, i);
    StartsReadBack(fields, i + 1);
    ValueReadsBack(fields, i);
  }

  lemma FieldReadsBack(fields: seq<Field>, i: nat)
    requires fields != [] && Fits(fields) && i < |fields|
    ensures HasHeader(Encode(fields)) && Count(Encode(fields)) == |fields|
    ensures InBounds(Encode(fields), i) && FieldAt(Encode(fields), i) == fields[i]
  {
    HeaderReadsBack(fields, |fields| + i);
    BoundsReadBack(fields, i);
    ValueStands(fields, i);
    assert FieldAt(Encode(fields), i).tag == fields[i].tag;
    assert FieldAt(Encode(fields), i).value == fields[i].value;
  }

  /** Parsing what was built returns the list that was built. */
  lemma DecodeEncode(fields: seq<Field>)
    requires fields != [] && Fits(fields)
    ensures WellFormed(Encode(fields)) && Fields(Encode(fields)) == fields
  {
    HeaderReadsBack(fields, 0);
    forall i | 0 <= i < |fields|
      ensures InBounds(Encode(fields), i) && FieldAt(Encode(fields), i) == fields[i]
    {
      FieldReadsBack(fields, i);
    }
    FieldsAre(Encode(fields), fields);
  }

  lemma HeaderWordsRead(buf: Bytes, fields: seq<Field>, k: nat)
    requires HasHeader(buf) && Count(buf) == |fields| > 0 && k < 2 * |fields|
    requires forall k :: 0 <= k < |fields| ==> InBounds(buf, k) && fields[k] == FieldAt(buf, k)
    ensures HeaderWord(fields, k) == WordAt(buf, k)
  {
    if k < |fields| {
      FieldsTile(buf, fields, k);
    }
  }

  lemma HeaderReads(buf: Bytes, fields: seq<Field>)
    requires HasHeader(buf) && Count(buf) == |fields| > 0
    requires forall k :: 0 <= k < |fields| ==> InBounds(buf, k) && fields[k] == FieldAt(buf, k)
    ensures forall k :: 0 <= k < 2 * |fields| ==> Header(fields)[k] == WordAt(buf, k)
  {
    forall k | 0 <= k < 2 * |fields|
      ensures Header(fields)[k] == WordAt(buf, k)
    {
      HeaderWordsRead(buf, fields, k);
    }
  }

  lemma OffsetsFit(buf: Bytes, fields: seq<Field>)
    requires HasHeader(buf) && Count(buf) == |fields| > 0
    requires forall k :: 0 <= k < |fields| ==> InBounds(buf, k) && fields[k] == FieldAt(buf, k)
    ensures Fits(fields)
  {
    FieldsTile(buf, fields, |fields| - 1);
  }

  lemma Rejoined(buf: Bytes, k: nat, a: Bytes, b: Bytes)
    requires k <= |buf| && a == buf[..k] && b == buf[k..]
    ensures a + b == buf
  {
  }

  lemma EncodeRead(buf: Bytes, fields: seq<Field>)
    requires HasHeader(buf) && Count(buf) == |fields| > 0
    requires forall k :: 0 <= k < |fields| ==> InBounds(buf, k) && fields[k] == FieldAt(buf, k)
    ensures Encode(fields) == buf
  {
    var n := |fields|;
    assert Words(Header(fields)) == buf[..8 * n] by {
      HeaderReads(buf, fields);
      WordsOfPrefix(buf, Header(fields));
    }
    assert Values(fields, n) == buf[8 * n..] by {
      FieldsTile(buf, fields, n);
    }
    Rejoined(buf, 8 * n, Words(Header(fields)), Values(fields, n));
  }

  /** Every buffer the parser accepts is the encoding of the list it reads, so its values tile its tail. */
  lemma EncodeDecode(buf: Bytes)
    requires WellFormed(buf)
    ensures Fits(Fields(buf)) && Encode(Fields(buf)) == buf
  {
    FieldsInBounds(buf);
    OffsetsFit(buf, Fields(buf));
    EncodeRead(buf, Fields(buf));
  }

  /** An accepted buffer announces its values in order. */
  lemma StartsMonotone(buf: Bytes, i: nat, j: nat)
    requires WellFormed(buf) && i <= j <= Count(buf)
    ensures Start(buf, i) <= Start(buf, j)
  {
    FieldsInBounds(buf);
    FieldsTile(buf, Fields(buf), i);
    FieldsTile(buf, Fields(buf), j);
    OffsetMonotone(Fields(buf), i, j);
  }

  /** The parser inverts the builder on the map, repeated tags included. */
  lemma ParseEncode(fields: seq<Field>)
    requires Fits(fields)
    ensures Parse(Encode(fields)) == Some(ToMap(fields))
  {
    if fields != [] {
      DecodeEncode(fields);
    }
  }

  /** Word k of the buffer is this number. */
  predicate WordIs(b: Bytes, k: nat, v: int) {
    4 * k + 4 <= |b| && Little32(b, 4 * k) == v
  }

  lemma TagStands(fields: seq<Field>, i: nat)
    requires Fits(fields) && i < |fields|
    ensures WordIs(Encode(fields), |fields| + i, fields[i].tag)
  {
    WordStands(fields, |fields| + i);
  }

  lemma OffsetStands(fields: seq<Field>, i: nat)
    requires Fits(fields) && i < |fields|
    ensures WordIs(Encode(fields), i, if i == 0 then |fields| else Offset(fields, i))
  {
    WordStands(fields, i);
  }

  /** Where the header of a built message stands: the count, the running totals of the value lengths, the tags. */
  lemma WireLayout(fields: seq<Field>, i: nat)
    requires Fits(fields) && i < |fields|
    ensures WordIs(Encode(fields), 0, |fields|)
    ensures i > 0 ==> WordIs(Encode(fields), i, Offset(fields, i))
    ensures WordIs(Encode(fields), |fields| + i, fields[i].tag)
  {
    OffsetStands(fields, 0);
    OffsetStands(fields, i);
    TagStands(fields, i);
  }

  /** And its values: end to end behind the header. */
  lemma ValueLayout(fields: seq<Field>, i: nat)
    requires i < |fields|
    ensures Offset(fields, 0) == 0 && Offset(fields, i + 1) == Offset(fields, i) + |fields[i].value|
    ensures Offset(fields, i + 1) <= Offset(fields, |fields|)
    ensures var n := |fields|;
            Encode(fields)[8 * n + Offset(fields, i)..8 * n + Offset(fields, i + 1)] == fields[i].value
  {
    ValueReadsBack(fields, i);
  }

  lemma WordStands(fields: seq<Field>, k: nat)
    requires fields != [] && Fits(fields) && k < 2 * |fields|
    ensures WordIs(Encode(fields), k, HeaderWord(fields, k))
  {
    HeaderReadsBack(fields, k);
    ReadIsPositional(Encode(fields), 4 * k);
  }

  /** The offsets of a message with n values never decrease and stay within the buffer. */
  predicate OffsetsAscend(buf: Bytes, n: nat)
    requires 8 * n <= |buf|
  {
    && (forall i :: 1 <= i < n ==> 8 * n + Little32(buf, 4 * i) <= |buf|)
    && forall i {:trigger Little32(buf, 4 * i)} :: 2 <= i < n ==> Little32(buf, 4 * (i - 1)) <= Little32(buf, 4 * i)
  }

  lemma WordsArePositional(buf: Bytes)
    ensures forall k: nat {:trigger WordAt(buf, k)} :: 4 * k + 4 <= |buf| ==> WordAt(buf, k) == Little32(buf, 4 * k)
  {
    forall k: nat | 4 * k + 4 <= |buf|
      ensures WordAt(buf, k) == Little32(buf, 4 * k)
    {
      ReadIsPositional(buf, 4 * k);
    }
  }

  /** Place i is in bounds exactly when its offset is within the buffer and not below the one before. */
  lemma BoundsMean(buf: Bytes, n: nat)
    requires HasHeader(buf) && n == Count(buf) > 0
    ensures AllInBounds(buf, n) <==> OffsetsAscend(buf, n)
  {
    WordsArePositional(buf);
    if AllInBounds(buf, n) {
      forall i | 1 <= i < n
        ensures 8 * n + Little32(buf, 4 * i) <= |buf|
        ensures i >= 2 ==> Little32(buf, 4 * (i - 1)) <= Little32(buf, 4 * i)
      {
        assert InBounds(buf, i - 1);
        assert Start(buf, i) == 8 * n + WordAt(buf, i);
        assert i >= 2 ==> Start(buf, i - 1) == 8 * n + WordAt(buf, i - 1);
      }
    }
    if OffsetsAscend(buf, n) {
      forall i | 0 <= i < n
        ensures InBounds(buf, i)
      {
        assert i + 1 < n ==> Start(buf, i + 1) == 8 * n + Little32(buf, 4 * (i + 1));
        assert i >= 1 ==> Start(buf, i) == 8 * n + Little32(buf, 4 * i);
        assert i >= 1 && i + 1 < n ==> Little32(buf, 4 * (i + 1 - 1)) <= Little32(buf, 4 * (i + 1));
      }
    }
  }

  /** The count is zero, or the header it announces is there and the offsets ascend. */
  predicate HasOffsets(buf: Bytes)
    requires |buf| >= 4
  {
    var n := Little32(buf, 0);
    n == 0 || (8 * n <= |buf| && OffsetsAscend(buf, n))
  }

  /** The TypeScript parser answers an empty map for a count of zero, and otherwise accepts exactly the buffers that hold
      their header and whose offsets ascend within them. */
  lemma ParseAccepts(buf: Bytes)
    ensures Parse(buf).Some? <==> |buf| >= 4 && HasOffsets(buf)
    ensures |buf| >= 4 && Little32(buf, 0) == 0 ==> Parse(buf) == Some(map[])
  {
    if |buf| >= 4 {
      ReadIsPositional(buf, 0);
      if HasHeader(buf) && Count(buf) > 0 {
        BoundsMean(buf, Count(buf));
      }
    }
  }

  /** The map has the tags of the fields and no others. */
  lemma {:induction false} ToMapKeys(fields: seq<Field>, tag: u32)
    ensures tag in ToMap(fields) <==> (exists f :: f in fields && f.tag == tag)
  {
    if fields != [] {
      var m := |fields| - 1;
      ToMapKeys(fields[..m], tag);
      assert forall f :: f in fields <==> f in fields[..m] || f == fields[m];
    }
  }

  /** A tag used once is found with its value. */
  lemma {:induction false} ToMapLookup(fields: seq<Field>, i: nat)
    requires i < |fields|
    requires forall j :: i < j < |fields| ==> fields[j].tag != fields[i].tag
    ensures fields[i].tag in ToMap(fields) && ToMap(fields)[fields[i].tag] == fields[i].value
  {
    var m := |fields| - 1;
    if i < m {
      assert fields[m].tag != fields[i].tag;
      ToMapLookup(fields[..m], i);
    }
  }

  // ---- The builder and parser of roughtime_source.ts ----

  /** The words the two header loops write are the header. */
  lemma HeaderIs(fields: seq<Field>, offsets: seq<nat>, ws: seq<nat>)
    requires fields != [] && |offsets| == |fields| && offsets[0] == |fields|
    requires forall k {:trigger offsets[k]} :: 1 <= k < |fields| ==> offsets[k] == Offset(fields, k)
    requires |ws| == |offsets| + |fields| && ws[..|offsets|] == offsets
    requires forall k {:trigger fields[k]} :: 0 <= k < |fields| ==> ws[|offsets| + k] == fields[k].tag
    ensures ws == Header(fields)
  {
    forall k | 0 <= k < 2 * |fields|
      ensures ws[k] == HeaderWord(fields, k)
    {
      if k < |fields| {
        assert ws[k] == offsets[k];
      } else {
        assert ws[|fields| + (k - |fields|)] == fields[k - |fields|].tag;
      }
    }
  }

  lemma HeaderOfNone(offsets: seq<nat>, ws: seq<nat>)
    requires |offsets| == 1 && offsets[0] == 0 && |ws| == 1 && ws[..1] == offsets
    ensures Words(ws) == Le32(0)
  {
    assert ws == [0] && Words([0]) == Words([]) + Le32(0);
  }

  /** The offsets found, the header and the values make the message. */
  lemma MessageIs(fields: seq<Field>, offsets: seq<nat>, ws: seq<nat>, body: Bytes)
    requires |offsets| == (if fields == [] then 1 else |fields|) && offsets[0] == |fields|
    requires forall k {:trigger offsets[k]} :: 1 <= k < |fields| ==> offsets[k] == Offset(fields, k)
    requires |ws| == |offsets| + |fields| && ws[..|offsets|] == offsets
    requires forall k {:trigger fields[k]} :: 0 <= k < |fields| ==> ws[|offsets| + k] == fields[k].tag
    requires body == Values(fields, |fields|)
    ensures Words(ws) + body == Encode(fields)
  {
    if fields == [] {
      HeaderOfNone(offsets, ws);
    } else {
      HeaderIs(fields, offsets, ws);
    }
  }

  /** The first loop of buildMessage: the count, then the offset of each value but the first. */
  method WriteOffsets(pairs: seq<Field>) returns (r: Result<seq<nat>, TlvError>)
    requires |pairs| < TWO_32
    ensures r.Success? <==> Fits(pairs)
    ensures r.Success? ==> |r.value| == (if pairs == [] then 1 else |pairs|) && r.value[0] == |pairs|
    ensures r.Success? ==> forall k {:trigger r.value[k]} :: 1 <= k < |pairs| ==> r.value[k] == Offset(pairs, k)
  {
    var n := |pairs|;
    var words: seq<nat> := [n];
    var offset := 0;
    for i := 0 to n
      invariant offset == Offset(pairs, i)
      invariant 0 < i ==> Offset(pairs, i - 1) < TWO_32
      invariant |words| == (if i == 0 then 1 else i) && words[0] == n
      invariant forall k {:trigger words[k]} :: 1 <= k < i ==> words[k] == Offset(pairs, k)
    {
      if i > 0 {
        if offset >= TWO_32 {
          OffsetMonotone(pairs, i, n - 1);
          return Failure(RangeError);
        }
        words := words + [offset];
      }
      offset := offset + |pairs[i].value|;
    }
    return Success(words);
  }

  /** The second loop: the tags behind the words written so far. */
  method WriteTags(pairs: seq<Field>, words: seq<nat>) returns (header: seq<nat>)
    ensures |header| == |words| + |pairs| && header[..|words|] == words
    ensures forall k {:trigger pairs[k]} :: 0 <= k < |pairs| ==> header[|words| + k] == pairs[k].tag
  {
    header := words;
    for i := 0 to |pairs|
      invariant |header| == |words| + i && header[..|words|] == words
      invariant forall k {:trigger pairs[k]} :: 0 <= k < i ==> header[|words| + k] == pairs[k].tag
    {
      header := header + [pairs[i].tag];
    }
  }

  /** The third loop: the values end to end. */
  method WriteValues(pairs: seq<Field>) returns (body: Bytes)
    ensures body == Values(pairs, |pairs|)
  {
    body := [];
    for i := 0 to |pairs|
      invariant body == Values(pairs, i)
    {
      body := body + pairs[i].value;
    }
  }

  /** buildMessage: throws a RangeError when the count or an offset does not fit in 32 bits. */
  method BuildMessage(pairs: seq<Field>) returns (r: Result<Bytes, TlvError>)
    ensures r == if Fits(pairs) then Success(Encode(pairs)) else Failure(RangeError)
  {
    if |pairs| >= TWO_32 {
      return Failure(RangeError);
    }
    var offsets := WriteOffsets(pairs);
    if offsets.Failure? {
      return Failure(RangeError);
    }
    var header := WriteTags(pairs, offsets.value);
    var body := WriteValues(pairs);
    MessageIs(pairs, offsets.value, header, body);
    return Success(Words(header) + body);
  }

  /** The header loops of parseMessage: n offsets, the first of them 0, then n tags. */
  method ReadHeader(buf: Bytes, n: nat) returns (offsets: seq<u32>, tags: seq<u32>)
    requires HasHeader(buf) && n == Count(buf) > 0
    ensures |offsets| == n && |tags| == n
    ensures forall k {:trigger offsets[k]} :: 0 <= k < n ==> 8 * n + offsets[k] == Start(buf, k)
    ensures forall k {:trigger tags[k]} :: 0 <= k < n ==> tags[k] == WordAt(buf, n + k)
  {
    offsets := [0];
    for i := 0 to n - 1
      invariant |offsets| == i + 1
      invariant forall k {:trigger offsets[k]} :: 0 <= k <= i ==> 8 * n + offsets[k] == Start(buf, k)
    {
      offsets := offsets + [ReadLe32(buf, 4 + 4 * i)];
    }
    var tagsStart := 4 + 4 * (n - 1);
    tags := [];
    for i := 0 to n
      invariant |tags| == i
      invariant forall k {:trigger tags[k]} :: 0 <= k < i ==> tags[k] == WordAt(buf, n + k)
    {
      tags := tags + [ReadLe32(buf, tagsStart + 4 * i)];
    }
  }

  /** One turn of the value loop: the field at its announced place, None when that place is out of bounds. */
  method CutField(buf: Bytes, offsets: seq<u32>, tags: seq<u32>, i: nat) returns (f: Option<Field>)
    requires HasHeader(buf) && i < Count(buf) == |offsets| == |tags|
    requires forall k {:trigger offsets[k]} :: 0 <= k < |offsets| ==> 8 * |offsets| + offsets[k] == Start(buf, k)
    requires forall k {:trigger tags[k]} :: 0 <= k < |tags| ==> tags[k] == WordAt(buf, |tags| + k)
    ensures f == Cut(buf, i)
  {
    var n := |offsets|;
    var valuesStart := 4 + 4 * (n - 1) + 4 * n;
    var start := valuesStart + offsets[i];
    var end := if i + 1 < n then valuesStart + offsets[i + 1] else |buf|;
    if end > |buf| || start > end {
      return None;
    }
    return Some(Field(tags[i], buf[start..end]));
  }

  /** The value loop of parseMessage: it gives up at the first value out of bounds. */
  method CutAll(buf: Bytes, offsets: seq<u32>, tags: seq<u32>) returns (r: Option<map<u32, Bytes>>)
    requires HasHeader(buf) && 0 < Count(buf) == |offsets| == |tags|
    requires forall k {:trigger offsets[k]} :: 0 <= k < |offsets| ==> 8 * |offsets| + offsets[k] == Start(buf, k)
    requires forall k {:trigger tags[k]} :: 0 <= k < |tags| ==> tags[k] == WordAt(buf, |tags| + k)
    ensures r == if |Fields(buf)| == Count(buf) then Some(ToMap(Fields(buf))) else None
  {
    ghost var cuts := Cuts(buf);
    var m: map<u32, Bytes> := map[];
    for i := 0 to |offsets|
      invariant |Kept(cuts, i)| == i
      invariant m == ToMap(Kept(cuts, i))
    {
      var f := CutField(buf, offsets, tags, i);
      assert f == cuts[i];
      InsertNext(cuts, i);
      if f == None {
        KeepsAtMost(cuts, i + 1, |cuts|);
        return None;
      }
      m := m[f.value.tag := f.value.value];
    }
    return Some(m);
  }

  /** parseMessage: the header is read into lists, then the values are cut out one by one. */
  method ParseMessage(buf: Bytes) returns (r: Option<map<u32, Bytes>>)
    ensures r == Parse(buf)
  {
    if |buf| < 4 {
      return None;
    }
    var n: nat := ReadLe32(buf, 0);
    if n == 0 {
      return Some(map[]);
    }
    if |buf| < 4 + 4 * (n - 1) + 4 * n {
      return None;
    }
    var offsets, tags := ReadHeader(buf, n);
    NoneDropped(buf);
    r := CutAll(buf, offsets, tags);
  }

  // ---- The parser of wire.rs ----

  const MAX_TAGS := 64

  /** The slots of the offsets vector, which starts out as zeros and is filled from index 1. */
  function RustOffset(data: Bytes, i: nat): u32
    requires HasHeader(data) && i < Count(data)
  {
    if i == 0 then 0 else ReadLe32(data, 4 + (i - 1) * 4)
  }

  function RustTag(data: Bytes, i: nat): u32
    requires HasHeader(data) && i < Count(data)
  {
    ReadLe32(data, 4 + (Count(data) - 1) * 4 + i * 4)
  }

  function RustHeaderSize(num: nat): int {
    4 + (num - 1) * 4 + num * 4
  }

  function RustStart(data: Bytes, i: nat): int
    requires HasHeader(data) && i < Count(data)
  {
    RustHeaderSize(Count(data)) + RustOffset(data, i)
  }

  function RustEnd(data: Bytes, i: nat): int
    requires HasHeader(data) && i < Count(data)
  {
    if i + 1 < Count(data) then RustHeaderSize(Count(data)) + RustOffset(data, i + 1) else |data|
  }

  /** What turn i of the value loop inserts: nothing where one of the three comparisons fails. */
  function RustField(data: Bytes, i: nat): Option<Field>
    requires HasHeader(data) && i < Count(data)
  {
    var start, end := RustStart(data, i), RustEnd(data, i);
    if 0 <= start <= |data| && end <= |data| && start <= end then
      Some(Field(RustTag(data, i), data[start..end]))
    else None
  }

  function RustCuts(data: Bytes): (cuts: seq<Option<Field>>)
    requires HasHeader(data)
    ensures |cuts| == Count(data)
  {
    seq(Count(data), i requires 0 <= i < Count(data) => RustField(data, i))
  }

  function RustParse(data: Bytes): Option<map<u32, Bytes>> {
    if HasHeader(data) && 0 < Count(data) <= MAX_TAGS then Some(ToMap(Kept(RustCuts(data), Count(data)))) else None
  }

  /** The first loop of parse_msg, over a zeroed vector. */
  method RustOffsets(data: Bytes, num: nat) returns (offsets: seq<u32>)
    requires HasHeader(data) && num == Count(data) > 0
    ensures |offsets| == num
    ensures forall k {:trigger offsets[k]} :: 0 <= k < num ==> offsets[k] == RustOffset(data, k)
  {
    var v := new u32[num](_ => 0);
    for i := 1 to num
      invariant forall k :: 0 <= k < i ==> v[k] == RustOffset(data, k)
    {
      var o := 4 + (i - 1) * 4;
      v[i] := ReadLe32(data, o);
    }
    return v[..];
  }

  /** The second loop, counted from the start of the tags. */
  method RustTags(data: Bytes, num: nat) returns (tagList: seq<u32>)
    requires HasHeader(data) && num == Count(data) > 0
    ensures |tagList| == num
    ensures forall k {:trigger tagList[k]} :: 0 <= k < num ==> tagList[k] == RustTag(data, k)
  {
    tagList := [];
    var tagsBase := 4 + (num - 1) * 4;
    for i := 0 to num
      invariant |tagList| == i
      invariant forall k {:trigger tagList[k]} :: 0 <= k < i ==> tagList[k] == RustTag(data, k)
    {
      var o := tagsBase + i * 4;
      tagList := tagList + [ReadLe32(data, o)];
    }
  }

  /** One turn of the third loop: what the three comparisons let through. */
  method RustCut(data: Bytes, offsets: seq<u32>, tagList: seq<u32>, i: nat) returns (f: Option<Field>)
    requires HasHeader(data) && i < Count(data) == |offsets| == |tagList|
    requires forall k {:trigger offsets[k]} :: 0 <= k < |offsets| ==> offsets[k] == RustOffset(data, k)
    requires tagList[i] == RustTag(data, i)
    ensures f == RustField(data, i)
  {
    var num := |tagList|;
    var valuesStart := 4 + (num - 1) * 4 + num * 4;
    var start := valuesStart + offsets[i];
    var end := if i + 1 < num then valuesStart + offsets[i + 1] else |data|;
    if start <= |data| && end <= |data| && start <= end {
      return Some(Field(tagList[i], data[start..end]));
    }
    return None;
  }

  /** The third loop. */
  method RustValues(data: Bytes, offsets: seq<u32>, tagList: seq<u32>) returns (m: map<u32, Bytes>)
    requires HasHeader(data) && 0 < Count(data) == |offsets| == |tagList|
    requires forall k {:trigger offsets[k]} :: 0 <= k < |offsets| ==> offsets[k] == RustOffset(data, k)
    requires forall k {:trigger tagList[k]} :: 0 <= k < |tagList| ==> tagList[k] == RustTag(data, k)
    ensures m == ToMap(Kept(RustCuts(data), Count(data)))
  {
    ghost var cuts := RustCuts(data);
    m := map[];
    for i := 0 to |tagList|
      invariant m == ToMap(Kept(cuts, i))
    {
      InsertNext(cuts, i);
      var f := RustCut(data, offsets, tagList, i);
      assert f == cuts[i];
      if f == None {
        continue;
      }
      m := m[f.value.tag := f.value.value];
    }
  }

  /** parse_msg of wire.rs. */
  method RustParseMsg(data: Bytes) returns (r: Option<map<u32, Bytes>>)
    ensures r == RustParse(data)
  {
    if |data| < 4 {
      return None;
    }
    var num: nat := ReadLe32(data, 0);
    if num == 0 || num > MAX_TAGS {
      return None;
    }
    var headerSize := 4 + (num - 1) * 4 + num * 4;
    if |data| < headerSize {
      return None;
    }
    var offsets := RustOffsets(data, num);
    var tagList := RustTags(data, num);
    var m := RustValues(data, offsets, tagList);
    return Some(m);
  }

  // ---- The two parsers ----

  /** Both value loops cut field i at the same place and agree on whether it lies inside the buffer. */
  lemma SameField(data: Bytes, i: nat)
    requires HasHeader(data) && i < Count(data)
    ensures RustField(data, i) == Cut(data, i)
  {
    assert RustStart(data, i) == Start(data, i) && RustEnd(data, i) == Start(data, i + 1);
    assert RustTag(data, i) == WordAt(data, Count(data) + i);
  }

  lemma SameCuts(data: Bytes)
    requires HasHeader(data)
    ensures RustCuts(data) == Cuts(data)
  {
    forall i | 0 <= i < Count(data)
      ensures RustCuts(data)[i] == Cuts(data)[i]
    {
      SameField(data, i);
    }
  }

  /** Where the TypeScript parser accepts 1 to 64 tags the Rust parser returns the same map; where it refuses one the
      Rust parser still answers, with the fields that lie inside the buffer; they agree in no other case. */
  lemma ParsersAgree(buf: Bytes)
    ensures RustParse(buf).Some? <==> |buf| >= 4 && 1 <= Little32(buf, 0) <= 64 && 8 * Little32(buf, 0) <= |buf|
    ensures RustParse(buf).Some? ==> HasHeader(buf) && RustParse(buf) == Some(ToMap(Fields(buf)))
    ensures RustParse(buf).Some? ==> (Parse(buf) == RustParse(buf) <==> AllInBounds(buf, Count(buf)))
  {
    if |buf| >= 4 {
      ReadIsPositional(buf, 0);
    }
    if HasHeader(buf) {
      SameCuts(buf);
    }
  }
}
