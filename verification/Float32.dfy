/** Single-precision floating point, as Buffer.writeFloatBE and readFloatBE use it. */
module Float32 {
  import opened ByteOrder

  /** Storing a number in 32 bits, and what a pattern reads back as. */
  datatype Codec = Codec(pack: real -> u32, unpack: u32 -> real)

  /** What a number has become after it was stored and read. */
  function Trip(c: Codec, x: real): real {
    c.unpack(c.pack(x))
  }

  // ---- The values of the patterns ----

  const SIGN_BIT: nat := 0x8000_0000
  const HIDDEN_BIT: nat := 0x80_0000

  /** The magnitude of the low 31 bits, in units of two to the -150. */
  function Units(k: nat): nat {
    var exponent, fraction := k / HIDDEN_BIT, k % HIDDEN_BIT;
    (if exponent == 0 then 2 * fraction else HIDDEN_BIT + fraction) * Pow2(exponent)
  }

  /** Neither an infinity nor a NaN. */
  predicate Finite(bits: u32) {
    bits % SIGN_BIT < 0x7F80_0000
  }

  function Value(bits: u32): real {
    Scaled(bits, 150)
  }

  function Scaled(bits: u32, e: nat): real {
    if bits < SIGN_BIT then Ratio(Units(bits), Pow2(e)) else -Ratio(Units(bits - SIGN_BIT), Pow2(e))
  }

  function Ratio(u: nat, p: nat): (r: real)
    requires p > 0
    ensures r >= 0.0
  {
    u as real / p as real
  }

  function Distance(x: real, y: real): real {
    if x < y then y - x else x - y
  }

  /** No finite value is closer. */
  ghost predicate Nearest(x: real, bits: u32) {
    Finite(bits) && forall b: u32 :: Finite(b) ==> Distance(x, Value(bits)) <= Distance(x, Value(b))
  }

  const LARGEST: u32 := 0x7F7F_FFFF

  /** A codec that rounds to nearest, ties either way, and reads finite patterns at their value. Infinities and NaN are
      left open. */
  ghost predicate Rounds(c: Codec) {
    && (forall x: real :: -Value(LARGEST) <= x <= Value(LARGEST) ==> Nearest(x, c.pack(x)))
    && (forall b: u32 :: Finite(b) ==> c.unpack(b) == Value(b))
  }

  ghost predicate NearestBelow(x: real, bits: u32, n: nat) {
    Finite(bits) && forall b: u32 :: b < n && Finite(b) ==> Distance(x, Value(bits)) <= Distance(x, Value(b))
  }

  lemma {:induction false} ClosestOf(x: real, n: nat) returns (bits: u32)
    requires n <= TWO_32
    ensures NearestBelow(x, bits, n)
  {
    bits := 0;
    if n > 0 {
      bits := ClosestOf(x, n - 1);
      if Finite(n - 1) && Distance(x, Value(n - 1)) < Distance(x, Value(bits)) {
        bits := n - 1;
      }
    }
  }

  /** Every number has a nearest pattern, so a codec that rounds exists. */
  lemma NearestExists(x: real)
    ensures exists bits: u32 :: Nearest(x, bits)
  {
    var bits := ClosestOf(x, TWO_32);
    assert Nearest(x, bits);
  }

  /** Some pattern has this value. */
  ghost predicate Representable(x: real) {
    exists b: u32 :: Finite(b) && Value(b) == x
  }

  /** In the finite range, a number survives storage exactly when it is the value of a pattern. */
  lemma SurvivesExactly(c: Codec, x: real)
    requires Rounds(c) && -Value(LARGEST) <= x <= Value(LARGEST)
    ensures Trip(c, x) == x <==> Representable(x)
  {
    assert Nearest(x, c.pack(x));
    if Representable(x) {
      var b: u32 :| Finite(b) && Value(b) == x;
      assert Distance(x, Value(c.pack(x))) <= Distance(x, Value(b));
    }
  }

  // ---- Thirds ----

  lemma Doubling(p: int)
    requires p % 3 != 0
    ensures 2 * p % 3 != 0
  {
  }

  lemma {:induction false} Pow2IsNoTriple(n: nat)
    ensures Pow2(n) % 3 != 0
  {
    if n > 0 {
      Pow2IsNoTriple(n - 1);
      Doubling(Pow2(n - 1));
    }
  }

  lemma RatioTimes(u: nat, p: nat)
    requires p > 0
    ensures Ratio(u, p) * p as real == u as real
  {
  }

  lemma NoTwoThirds(u: nat, p: nat)
    requires p > 0 && p % 3 != 0
    ensures Ratio(u, p) != 2.0 / 3.0
  {
    RatioTimes(u, p);
    assert 3 * u != 2 * p;
    assert 3.0 * u as real != 2.0 * p as real;
  }

  lemma NoPatternIsTwoThirds(b: u32, e: nat)
    ensures Scaled(b, e) != 2.0 / 3.0
  {
    Pow2IsNoTriple(e);
    if b < SIGN_BIT {
      NoTwoThirds(Units(b), Pow2(e));
    }
  }

  /** Two thirds, the confidence when two of three sources answer, is the value of no pattern. */
  lemma TwoThirds()
    ensures !Representable(2.0 / 3.0)
  {
    forall b: u32 | Finite(b)
      ensures Value(b) != 2.0 / 3.0
    {
      var e: nat :| e == 150;
      NoPatternIsTwoThirds(b, e);
    }
  }

  lemma TwoThirdsIsRounded(c: Codec)
    requires Rounds(c)
    ensures Trip(c, 2.0 / 3.0) != 2.0 / 3.0
  {
    TwoThirds();
    OneInRange();
    SurvivesExactly(c, 2.0 / 3.0);
  }

  // ---- The order of the patterns ----

  lemma UnitsNext(k: nat)
    ensures Units(k) < Units(k + 1)
  {
    var exponent, fraction := k / HIDDEN_BIT, k % HIDDEN_BIT;
    if fraction + 1 < HIDDEN_BIT {
      assert (k + 1) / HIDDEN_BIT == exponent && (k + 1) % HIDDEN_BIT == fraction + 1;
      Larger(if exponent == 0 then 2 * fraction else HIDDEN_BIT + fraction,
             if exponent == 0 then 2 * (fraction + 1) else HIDDEN_BIT + fraction + 1, Pow2(exponent));
    } else {
      assert (k + 1) / HIDDEN_BIT == exponent + 1 && (k + 1) % HIDDEN_BIT == 0;
      Larger(if exponent == 0 then 2 * fraction else HIDDEN_BIT + fraction, 2 * HIDDEN_BIT, Pow2(exponent));
    }
  }

  lemma Larger(a: nat, b: nat, p: nat)
    requires a < b && p > 0
    ensures a * p < b * p
  {
  }

  lemma {:induction false} UnitsIncrease(j: nat, k: nat)
    requires j <= k
    ensures Units(j) <= Units(k)
    decreases k - j
  {
    if j < k {
      UnitsIncrease(j, k - 1);
      UnitsNext(k - 1);
    }
  }

  lemma ScaledInOrder(a: u32, b: u32, e: nat)
    requires a <= b < SIGN_BIT
    ensures 0.0 <= Scaled(a, e) <= Scaled(b, e)
  {
    UnitsIncrease(a, b);
    RatioInOrder(Units(a), Units(b), Pow2(e));
  }

  lemma RatioInOrder(a: nat, b: nat, p: nat)
    requires a <= b && p > 0
    ensures Ratio(a, p) <= Ratio(b, p)
  {
    RatioTimes(a, p);
    RatioTimes(b, p);
    assert (Ratio(b, p) - Ratio(a, p)) * p as real == (b - a) as real;
  }

  // ---- 100.1 ----

  lemma Pow2Plus4(k: nat)
    ensures Pow2(k + 4) == 16 * Pow2(k)
  {
    assert Pow2(k + 1) == 2 * Pow2(k);
    assert Pow2(k + 2) == 2 * Pow2(k + 1);
    assert Pow2(k + 3) == 2 * Pow2(k + 2);
    assert Pow2(k + 4) == 2 * Pow2(k + 3);
  }

  lemma Pow2Plus17(k: nat)
    ensures Pow2(k + 17) == 131072 * Pow2(k)
  {
    Pow2Plus4(k);
    Pow2Plus4(k + 4);
    Pow2Plus4(k + 8);
    Pow2Plus4(k + 12);
    assert Pow2(k + 17) == 2 * Pow2(k + 16);
  }

  lemma UnitsOf(k: nat, e: nat)
    requires 0 < e && k / HIDDEN_BIT == e
    ensures Units(k) == (HIDDEN_BIT + k % HIDDEN_BIT) * Pow2(e)
  {
  }

  lemma Cancelled(u: nat, n: nat, p: nat, q: nat)
    requires p > 0 && u == n * p && q == 131072 * p
    ensures Ratio(u, q) == n as real / 131072.0
  {
    var f := n as real / 131072.0;
    assert u as real == n as real * p as real == f * q as real;
  }

  /** With exponent field e, patterns are steps of one in units of two to the e - 150. */
  lemma ScaledSteps(k: u32, e: nat)
    requires 0 < e && k < SIGN_BIT && k / HIDDEN_BIT == e
    ensures Scaled(k, e + 17) == (HIDDEN_BIT + k % HIDDEN_BIT) as real / 131072.0
  {
    UnitsOf(k, e);
    Pow2Plus17(e);
    Cancelled(Units(k), HIDDEN_BIT + k % HIDDEN_BIT, Pow2(e), Pow2(e + 17));
  }

  /** The pattern nearest to 100.1, 13120307 steps of two to the -17 above zero. */
  const NEAR_100_1: u32 := 0x42C8_3333

  lemma OthersAreFarther(bits: u32, e: nat)
    requires e == 133 && Finite(bits) && bits != NEAR_100_1
    ensures Scaled(NEAR_100_1, e + 17) == 13120307.0 / 131072.0
    ensures Distance(100.1, Scaled(bits, e + 17)) > Distance(100.1, Scaled(NEAR_100_1, e + 17))
  {
    ScaledSteps(NEAR_100_1 - 1, e);
    ScaledSteps(NEAR_100_1, e);
    ScaledSteps(NEAR_100_1 + 1, e);
    if bits >= SIGN_BIT {
      assert Scaled(bits, e + 17) <= 0.0;
    } else if bits < NEAR_100_1 {
      ScaledInOrder(bits, NEAR_100_1 - 1, e + 17);
    } else {
      ScaledInOrder(NEAR_100_1 + 1, bits, e + 17);
    }
  }

  lemma NearestIsNear(bits: u32, e: nat)
    requires e == 133 && Finite(bits)
    requires Distance(100.1, Scaled(bits, e + 17)) <= Distance(100.1, Scaled(NEAR_100_1, e + 17))
    ensures Scaled(bits, e + 17) == 13120307.0 / 131072.0
  {
    OthersAreFarther(if bits == NEAR_100_1 then 0 else bits, e);
  }

  lemma InRange(e: nat)
    requires e == 133
    ensures 100.1 <= Scaled(LARGEST, e + 17)
  {
    ScaledSteps(NEAR_100_1 + 1, e);
    ScaledInOrder(NEAR_100_1 + 1, LARGEST, e + 17);
  }

  /** Whatever it does with ties, a codec returns 100.1 as 100.09999847412109375. */
  lemma TripOf100_1(c: Codec)
    requires Rounds(c)
    ensures Trip(c, 100.1) == 13120307.0 / 131072.0
  {
    var e: nat :| e == 133;
    InRange(e);
    assert e + 17 == 150 && -Value(LARGEST) <= 100.1 <= Value(LARGEST);
    var bits := c.pack(100.1);
    assert Nearest(100.1, bits);
    assert Distance(100.1, Value(bits)) <= Distance(100.1, Value(NEAR_100_1));
    NearestIsNear(bits, e);
  }

  lemma OneInRange()
    ensures 1.0 <= Value(LARGEST)
  {
    var e: nat :| e == 133;
    InRange(e);
    assert Value(LARGEST) == Scaled(LARGEST, e + 17);
  }
}
