/** Byte strings and the fixed-width integers the wire formats store in them. */
module ByteOrder {

  type byte = x: int | 0 <= x < 0x100
  type u32 = x: int | 0 <= x < TWO_32
  type u64 = x: int | 0 <= x < TWO_64

  const TWO_32: int := 0x1_0000_0000
  const TWO_64: int := 0x1_0000_0000_0000_0000

  type Bytes = seq<byte>

  /** A 32-byte hash value. */
  type Digest = b: Bytes | |b| == 32 witness seq(32, _ => 0)

  /** Equal concatenations whose first parts have equal lengths have equal parts. */
  lemma ConcatInjective<T>(a: seq<T>, b: seq<T>, c: seq<T>, d: seq<T>)
    requires a + b == c + d && |a| == |c|
    ensures a == c && b == d
  {
    assert (a + b)[..|a|] == a && (c + d)[..|c|] == c;
    assert (a + b)[|a|..] == b && (c + d)[|c|..] == d;
  }

  function Zeros(n: nat): (b: Bytes)
    ensures |b| == n
  {
    seq(n, _ => 0)
  }

  function Ascii(s: string): Bytes
    requires forall i :: 0 <= i < |s| ==> s[i] < 128 as char
  {
    seq(|s|, i requires 0 <= i < |s| => s[i] as int)
  }

  function Pow2(n: nat): (p: nat)
    ensures p > 0
  {
    if n == 0 then 1 else 2 * Pow2(n - 1)
  }

  /** The 32-bit integer with these bytes, least significant first. */
  function Word(b0: byte, b1: byte, b2: byte, b3: byte): u32 {
    b0 + 0x100 * (b1 + 0x100 * (b2 + 0x100 * b3))
  }

  // ---- Reading; the caller keeps the offset in bounds ----

  function ReadLe32(b: Bytes, i: nat): u32
    requires i + 4 <= |b|
  {
    Word(b[i], b[i + 1], b[i + 2], b[i + 3])
  }

  function ReadBe32(b: Bytes, i: nat): u32
    requires i + 4 <= |b|
  {
    Word(b[i + 3], b[i + 2], b[i + 1], b[i])
  }

  function ReadLe64(b: Bytes, i: nat): u64
    requires i + 8 <= |b|
  {
    ReadLe32(b, i) + TWO_32 * ReadLe32(b, i + 4)
  }

  function ReadBe64(b: Bytes, i: nat): u64
    requires i + 8 <= |b|
  {
    TWO_32 * ReadBe32(b, i) + ReadBe32(b, i + 4)
  }

  // ---- Writing; a value too wide for the field loses its high bits ----

  function Le32(v: nat): (b: Bytes)
    ensures |b| == 4
    ensures v < TWO_32 ==> ReadLe32(b, 0) == v
  {
    var q1 := v / 0x100;
    var q2 := q1 / 0x100;
    var q3 := q2 / 0x100;
    [v % 0x100, q1 % 0x100, q2 % 0x100, q3 % 0x100]
  }

  function Be32(v: nat): (b: Bytes)
    ensures |b| == 4
    ensures v < TWO_32 ==> ReadBe32(b, 0) == v
  {
    var q1 := v / 0x100;
    var q2 := q1 / 0x100;
    var q3 := q2 / 0x100;
    [q3 % 0x100, q2 % 0x100, q1 % 0x100, v % 0x100]
  }

  function Le64(v: nat): (b: Bytes)
    ensures |b| == 8
    ensures v < TWO_64 ==> ReadLe64(b, 0) == v
  {
    var lo, hi := Le32(v % TWO_32), Le32(v / TWO_32);
    assert ReadLe32(lo + hi, 0) == ReadLe32(lo, 0) && ReadLe32(lo + hi, 4) == ReadLe32(hi, 0);
    lo + hi
  }

  function Be64(v: nat): (b: Bytes)
    ensures |b| == 8
    ensures v < TWO_64 ==> ReadBe64(b, 0) == v
  {
    var hi, lo := Be32(v / TWO_32), Be32(v % TWO_32);
    assert ReadBe32(hi + lo, 0) == ReadBe32(hi, 0) && ReadBe32(hi + lo, 4) == ReadBe32(lo, 0);
    hi + lo
  }

  // ---- The bytes a read sees are the bytes a write would put there ----

  lemma WordDigits(b0: byte, b1: byte, b2: byte, b3: byte)
    ensures Le32(Word(b0, b1, b2, b3)) == [b0, b1, b2, b3]
    ensures Be32(Word(b3, b2, b1, b0)) == [b0, b1, b2, b3]
  {
    LowDigit(b0, b1 + 0x100 * (b2 + 0x100 * b3));
    LowDigit(b1, b2 + 0x100 * b3);
    LowDigit(b2, b3);
    LowDigit(b3, b2 + 0x100 * (b1 + 0x100 * b0));
    LowDigit(b2, b1 + 0x100 * b0);
    LowDigit(b1, b0);
  }

  lemma LowDigit(d: byte, rest: nat)
    ensures (d + 0x100 * rest) / 0x100 == rest && (d + 0x100 * rest) % 0x100 == d
  {
  }

  lemma Le32Unread(b: Bytes, i: nat)
    requires i + 4 <= |b|
    ensures Le32(ReadLe32(b, i)) == b[i..i + 4]
  {
    WordDigits(b[i], b[i + 1], b[i + 2], b[i + 3]);
  }

  // ---- Positional values ----

  /** The number four bytes stand for, most significant first. */
  function Big32(b: Bytes, i: nat): int
    requires i + 4 <= |b|
  {
    Digits(b[i + 3], b[i + 2], b[i + 1], b[i])
  }

  /** The number four bytes stand for, least significant first. */
  function Little32(b: Bytes, i: nat): int
    requires i + 4 <= |b|
  {
    Digits(b[i], b[i + 1], b[i + 2], b[i + 3])
  }

  function Digits(d0: int, d1: int, d2: int, d3: int): int {
    d0 + 256 * d1 + 65536 * d2 + 16777216 * d3
  }

  function Big64(b: Bytes, i: nat): int
    requires i + 8 <= |b|
  {
    4294967296 * Big32(b, i) + Big32(b, i + 4)
  }

  function Little64(b: Bytes, i: nat): int
    requires i + 8 <= |b|
  {
    Little32(b, i) + 4294967296 * Little32(b, i + 4)
  }

  /** The reads give these numbers. */
  lemma ReadsArePositional(b: Bytes, i: nat)
    requires i + 8 <= |b|
    ensures ReadBe32(b, i) == Big32(b, i) && ReadBe64(b, i) == Big64(b, i)
    ensures ReadLe32(b, i) == Little32(b, i) && ReadLe64(b, i) == Little64(b, i)
  {
  }

  lemma ReadIsPositional(b: Bytes, i: nat)
    requires i + 4 <= |b|
    ensures ReadBe32(b, i) == Big32(b, i) && ReadLe32(b, i) == Little32(b, i)
  {
  }

  lemma Remainder(v: nat, low: u32, high: nat)
    requires v == low + TWO_32 * high
    ensures v % TWO_32 == low
  {
  }

  /** The writes write them; a number too wide for four bytes is cut. */
  lemma WritesArePositional(v: nat)
    ensures Big32(Be32(v), 0) == v % 0x1_0000_0000 && Little32(Le32(v), 0) == v % 0x1_0000_0000
  {
    var q1 := v / 0x100;
    var q2 := q1 / 0x100;
    var q3 := q2 / 0x100;
    Remainder(v, Word(v % 0x100, q1 % 0x100, q2 % 0x100, q3 % 0x100), q3 / 0x100);
  }

  lemma Writes64ArePositional(v: u64)
    ensures Big64(Be64(v), 0) == v && Little64(Le64(v), 0) == v
  {
    ReadsArePositional(Be64(v), 0);
    ReadsArePositional(Le64(v), 0);
  }

  /** Bytes that stand in another string have the same value there. */
  lemma SameByte(b: Bytes, i: nat, c: Bytes, j: nat, n: nat, k: nat)
    requires k < n && i + n <= |b| && j + n <= |c| && b[i..i + n] == c[j..j + n]
    ensures b[i + k] == c[j + k]
  {
    assert b[i..i + n][k] == c[j..j + n][k];
  }

  lemma SameBig32(b: Bytes, i: nat, c: Bytes, j: nat)
    requires i + 4 <= |b| && j + 4 <= |c| && b[i..i + 4] == c[j..j + 4]
    ensures Big32(b, i) == Big32(c, j)
  {
    SameByte(b, i, c, j, 4, 0);
    SameByte(b, i, c, j, 4, 1);
    SameByte(b, i, c, j, 4, 2);
    SameByte(b, i, c, j, 4, 3);
  }

  lemma SameBig64(b: Bytes, i: nat, c: Bytes, j: nat)
    requires i + 8 <= |b| && j + 8 <= |c| && b[i..i + 8] == c[j..j + 8]
    ensures Big64(b, i) == Big64(c, j)
  {
    SameByte(b, i, c, j, 8, 0);
    SameByte(b, i, c, j, 8, 1);
    SameByte(b, i, c, j, 8, 2);
    SameByte(b, i, c, j, 8, 3);
    SameByte(b, i, c, j, 8, 4);
    SameByte(b, i, c, j, 8, 5);
    SameByte(b, i, c, j, 8, 6);
    SameByte(b, i, c, j, 8, 7);
  }

  lemma SameLittle32(b: Bytes, i: nat, c: Bytes, j: nat)
    requires i + 4 <= |b| && j + 4 <= |c| && b[i..i + 4] == c[j..j + 4]
    ensures Little32(b, i) == Little32(c, j)
  {
    SameByte(b, i, c, j, 4, 0);
    SameByte(b, i, c, j, 4, 1);
    SameByte(b, i, c, j, 4, 2);
    SameByte(b, i, c, j, 4, 3);
  }

  /** A written number, wherever it stands. */
  lemma Big32Of(b: Bytes, i: nat, v: nat)
    requires i + 4 <= |b| && b[i..i + 4] == Be32(v)
    ensures Big32(b, i) == v % 0x1_0000_0000
  {
    WritesArePositional(v);
    assert Be32(v)[0..4] == Be32(v);
    SameBig32(b, i, Be32(v), 0);
  }

  lemma Big64Of(b: Bytes, i: nat, v: u64)
    requires i + 8 <= |b| && b[i..i + 8] == Be64(v)
    ensures Big64(b, i) == v
  {
    Writes64ArePositional(v);
    assert Be64(v)[0..8] == Be64(v);
    SameBig64(b, i, Be64(v), 0);
  }
}
