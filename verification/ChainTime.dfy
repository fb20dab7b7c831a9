/** The time a Roughtime chain stands for, and the check of a PoT against it: src/roughtime/types.rs and chain.rs. */
module ChainTime {
  import opened Wrappers
  import opened ByteOrder
  import opened MerkleWalk
  import opened RoughtimeChain
  import opened Median

  const Id: int -> int := (x: int) => x

  function Midps(atts: seq<Attestation>): (m: seq<int>)
    ensures |m| == |atts|
  {
    seq(|atts|, i requires 0 <= i < |atts| => atts[i].midp as int)
  }

  function MaxRadi(atts: seq<Attestation>): u32
    requires atts != []
  {
    if |atts| == 1 then atts[0].radi
    else
      var rest := MaxRadi(atts[1..]);
      if atts[0].radi > rest then atts[0].radi else rest
  }

  /** The median of sorted midpoints; the sum of the two middle ones is a u64 and wraps. */
  function MedianOf(sorted: seq<int>): int
    requires sorted != []
  {
    var n := |sorted|;
    if n % 2 == 0 then (sorted[n / 2 - 1] + sorted[n / 2]) % TWO_64 / 2 else sorted[n / 2]
  }

  /** synthesise_timestamp; None is the panic on an empty chain. */
  function SynthesiseTimestamp(atts: seq<Attestation>): Option<(int, u32)> {
    if atts == [] then None else Some((MedianOf(Sort(Id, Midps(atts))), MaxRadi(atts)))
  }

  // ---- What the synthesised time is ----

  /** The same numbers in ascending order. */
  predicate Arranges(sorted: seq<int>, midps: seq<int>) {
    multiset(sorted) == multiset(midps) && forall i, j :: 0 <= i < j < |sorted| ==> sorted[i] <= sorted[j]
  }

  lemma LastIsGreatest(s: seq<int>, t: seq<int>)
    requires s != [] && t != [] && Arranges(s, t) && Arranges(t, s)
    ensures s[|s| - 1] <= t[|t| - 1]
  {
    assert s[|s| - 1] in multiset(t);
    var j :| 0 <= j < |t| && t[j] == s[|s| - 1];
  }

  lemma WithoutLast(s: seq<int>, t: seq<int>, m: nat)
    requires |s| == |t| == m + 1 && s[m] == t[m] && multiset(s) == multiset(t)
    ensures multiset(s[..m]) == multiset(t[..m])
  {
    LastSplits(s);
    LastSplits(t);
    assert multiset(s[..m]) == multiset(s) - multiset{s[m]};
    assert multiset(t[..m]) == multiset(t) - multiset{t[m]};
  }

  lemma ArrangesWithoutLast(s: seq<int>, t: seq<int>, m: nat)
    requires |s| == |t| == m + 1 && s[m] == t[m] && Arranges(s, t)
    ensures Arranges(s[..m], t[..m])
  {
    WithoutLast(s, t, m);
  }

  /** There is one ascending order. */
  lemma {:induction false} ArrangedOnce(s: seq<int>, t: seq<int>)
    requires Arranges(s, t) && Arranges(t, s)
    ensures s == t
    decreases |s|
  {
    assert |s| == |multiset(s)| == |multiset(t)| == |t|;
    if s != [] {
      var m := |s| - 1;
      LastIsGreatest(s, t);
      LastIsGreatest(t, s);
      ArrangesWithoutLast(s, t, m);
      ArrangesWithoutLast(t, s, m);
      ArrangedOnce(s[..m], t[..m]);
      assert s == s[..m] + [s[m]] && t == t[..m] + [t[m]];
    }
  }

  /** The middle number of an odd count in order; of an even count the average of the middle two, whose sum is cut to 64
      bits. */
  ghost predicate IsMedian(m: int, midps: seq<int>) {
    exists s: seq<int> :: Arranges(s, midps) && s != [] && m == MiddleOf(s)
  }

  function MiddleOf(s: seq<int>): int
    requires s != []
  {
    if |s| % 2 == 1 then s[(|s| - 1) / 2]
    else (s[|s| / 2 - 1] + s[|s| / 2]) % 0x1_0000_0000_0000_0000 / 2
  }

  ghost predicate IsLargestRadius(r: int, atts: seq<Attestation>) {
    && (exists i :: 0 <= i < |atts| && atts[i].radi == r)
    && forall i :: 0 <= i < |atts| ==> atts[i].radi <= r
  }

  lemma {:induction false} MaxRadiIsLargest(atts: seq<Attestation>)
    requires atts != []
    ensures IsLargestRadius(MaxRadi(atts), atts)
  {
    if |atts| == 1 {
      assert atts[0].radi == MaxRadi(atts);
    } else {
      MaxRadiIsLargest(atts[1..]);
      var i :| 0 <= i < |atts[1..]| && atts[1..][i].radi == MaxRadi(atts[1..]);
      assert atts[i + 1].radi == MaxRadi(atts[1..]);
      assert atts[0].radi == MaxRadi(atts) || atts[i + 1].radi == MaxRadi(atts);
    }
  }

  lemma SortArranges(midps: seq<int>)
    ensures Arranges(Sort(Id, midps), midps)
  {
    var sorted := Sort(Id, midps);
    SortSorts(Id, midps);
    forall i, j | 0 <= i < j < |sorted|
      ensures sorted[i] <= sorted[j]
    {
      assert Id(sorted[i]) <= Id(sorted[j]);
    }
  }

  lemma MedianIsMiddle(midps: seq<int>, m: int)
    requires midps != []
    ensures m == MedianOf(Sort(Id, midps)) <==> IsMedian(m, midps)
  {
    var sorted := Sort(Id, midps);
    SortArranges(midps);
    assert MedianOf(sorted) == MiddleOf(sorted);
    if IsMedian(m, midps) {
      var s: seq<int> :| Arranges(s, midps) && s != [] && m == MiddleOf(s);
      ArrangedOnce(s, sorted);
    }
  }

  /** synthesise_timestamp gives the median of the midpoints and the largest radius. */
  lemma TimeMeans(atts: seq<Attestation>, m: int)
    ensures SynthesiseTimestamp(atts).Some? <==> atts != []
    ensures atts != [] ==> (SynthesiseTimestamp(atts).value.0 == m <==> IsMedian(m, Midps(atts)))
    ensures atts != [] ==> IsLargestRadius(SynthesiseTimestamp(atts).value.1, atts)
  {
    if atts != [] {
      MedianIsMiddle(Midps(atts), m);
      MaxRadiIsLargest(atts);
    }
  }

  // ---- When the median is one ----

  predicate AllU64(s: seq<int>) {
    forall i :: 0 <= i < |s| ==> 0 <= s[i] < TWO_64
  }

  /** There is one middle number, or the sum of the two does not wrap. */
  predicate SumFits(sorted: seq<int>)
    requires sorted != []
  {
    var n := |sorted|;
    n % 2 == 0 ==> sorted[n / 2 - 1] + sorted[n / 2] < TWO_64
  }

  predicate MedianFits(atts: seq<Attestation>)
    requires atts != []
  {
    SumFits(Sort(Id, Midps(atts)))
  }

  lemma WrappedAverage(a: int, b: int)
    requires 0 <= a <= b < TWO_64
    ensures a + b < TWO_64 ==> a <= (a + b) % TWO_64 / 2 <= b
    ensures a + b >= TWO_64 ==> (a + b) % TWO_64 / 2 < a && (a + b) % TWO_64 / 2 <= b - TWO_64 / 2
  {
    if a + b >= TWO_64 {
      assert (a + b) % TWO_64 == a + b - TWO_64;
    }
  }

  /** The averaged median lies between the two middle midpoints exactly when their sum fits in a u64. */
  lemma MedianWraps(sorted: seq<int>)
    requires Sorted(Id, sorted) && AllU64(sorted) && sorted != [] && |sorted| % 2 == 0
    ensures var a, b := sorted[|sorted| / 2 - 1], sorted[|sorted| / 2];
            a <= MedianOf(sorted) <= b <==> a + b < TWO_64
  {
    var a, b := sorted[|sorted| / 2 - 1], sorted[|sorted| / 2];
    assert Id(a) <= Id(b);
    WrappedAverage(a, b);
  }

  predicate Ascending(s: seq<int>) {
    AllU64(s) && forall i, j :: 0 <= i < j < |s| ==> s[i] <= s[j]
  }

  /** Sorting orders the numbers, and none leaves the range all were in. */
  lemma SortAscends(midps: seq<int>)
    requires AllU64(midps)
    ensures Ascending(Sort(Id, midps))
  {
    var sorted := Sort(Id, midps);
    SortSorts(Id, midps);
    forall i | 0 <= i < |sorted|
      ensures 0 <= sorted[i] < TWO_64
    {
      assert sorted[i] in multiset(midps);
    }
    forall i, j | 0 <= i < j < |sorted|
      ensures sorted[i] <= sorted[j]
    {
      assert Id(sorted[i]) <= Id(sorted[j]);
    }
  }

  /** A middle midpoint lies in every range that holds more than half of all. */
  lemma MiddleMidp(midps: seq<int>, k: nat, lo: int, hi: int)
    requires 2 * CountIn(Id, midps, lo, hi) > |midps|
    requires |midps| <= 2 * (k + 1) && 2 * k <= |midps| && k < |midps|
    ensures lo <= Sort(Id, midps)[k] <= hi
  {
    var sorted := Sort(Id, midps);
    SortSorts(Id, midps);
    SortCounts(Id, midps, lo, hi);
    MiddleInRange(Id, sorted, k, lo, hi);
    assert Id(sorted[k]) == sorted[k];
  }

  lemma AverageInRange(a: int, b: int, lo: int, hi: int)
    requires 0 <= a <= b && a + b < TWO_64 && lo <= a && b <= hi
    ensures lo <= (a + b) % TWO_64 / 2 <= hi
  {
    WrappedAverage(a, b);
  }

  lemma MiddlePair(midps: seq<int>, k: nat, lo: int, hi: int)
    requires AllU64(midps) && |midps| == 2 * k + 2 && 2 * CountIn(Id, midps, lo, hi) > |midps|
    ensures var a, b := Sort(Id, midps)[k], Sort(Id, midps)[k + 1]; 0 <= a <= b && lo <= a && b <= hi
  {
    SortAscends(midps);
    MiddleMidp(midps, k, lo, hi);
    MiddleMidp(midps, k + 1, lo, hi);
  }

  lemma MajorityMedian(midps: seq<int>, lo: int, hi: int)
    requires midps != [] && AllU64(midps) && SumFits(Sort(Id, midps))
    requires 2 * CountIn(Id, midps, lo, hi) > |midps|
    ensures lo <= MedianOf(Sort(Id, midps)) <= hi
  {
    var sorted, m := Sort(Id, midps), |midps| / 2;
    if |midps| % 2 == 0 {
      MiddlePair(midps, m - 1, lo, hi);
      AverageInRange(sorted[m - 1], sorted[m], lo, hi);
    } else {
      MiddleMidp(midps, m, lo, hi);
    }
  }

  lemma SuffixCounts(sorted: seq<int>, k: nat)
    requires Ascending(sorted) && k < |sorted|
    ensures CountIn(Id, sorted, sorted[k], TWO_64 - 1) >= |sorted| - k
  {
    CountSplit(Id, sorted, k, sorted[k], TWO_64 - 1);
    CountAll(Id, sorted[k..], sorted[k], TWO_64 - 1);
  }

  /** From the lower middle midpoint up there is more than half. */
  lemma UpperPart(midps: seq<int>, k: nat)
    requires AllU64(midps) && |midps| == 2 * k + 2
    ensures 2 * CountIn(Id, midps, Sort(Id, midps)[k], TWO_64 - 1) > |midps|
  {
    var sorted := Sort(Id, midps);
    SortAscends(midps);
    SuffixCounts(sorted, k);
    SortCounts(Id, midps, sorted[k], TWO_64 - 1);
  }

  /** Whatever range holds most midpoints holds the synthesised time. */
  ghost predicate MajorityDecides(atts: seq<Attestation>)
    requires atts != []
  {
    forall lo, hi :: 2 * CountIn(Id, Midps(atts), lo, hi) > |atts| ==> lo <= SynthesiseTimestamp(atts).value.0 <= hi
  }

  lemma WrappedMedianIsLow(sorted: seq<int>)
    requires Ascending(sorted) && sorted != [] && !SumFits(sorted)
    ensures MedianOf(sorted) < sorted[|sorted| / 2 - 1] && MedianOf(sorted) <= sorted[|sorted| / 2] - TWO_64 / 2
  {
    var m := |sorted| / 2;
    WrappedAverage(sorted[m - 1], sorted[m]);
  }

  /** The median resists a faulty minority exactly when it does not wrap: at odd lengths always, at even ones when the
      two middle midpoints sum to less than 2^64. */
  lemma MajorityDecidesExactly(atts: seq<Attestation>)
    requires atts != []
    ensures MajorityDecides(atts) <==> MedianFits(atts)
  {
    var midps := Midps(atts);
    if MedianFits(atts) {
      forall lo, hi | 2 * CountIn(Id, midps, lo, hi) > |atts|
        ensures lo <= SynthesiseTimestamp(atts).value.0 <= hi
      {
        MajorityMedian(midps, lo, hi);
      }
    } else {
      SortAscends(midps);
      UpperPart(midps, |midps| / 2 - 1);
      WrappedMedianIsLow(Sort(Id, midps));
    }
  }

  /** A range that holds more than half of the midpoints holds the synthesised time, unless it wrapped. */
  lemma MajorityRangeHolds(atts: seq<Attestation>, lo: int, hi: int)
    requires atts != [] && MedianFits(atts)
    requires 2 * CountIn(Id, Midps(atts), lo, hi) > |atts|
    ensures lo <= SynthesiseTimestamp(atts).value.0 <= hi
  {
    MajorityMedian(Midps(atts), lo, hi);
  }

  /** Midpoints below 2^63 never wrap. */
  lemma SmallMidpsFit(atts: seq<Attestation>)
    requires atts != [] && forall i :: 0 <= i < |atts| ==> atts[i].midp < TWO_64 / 2
    ensures MedianFits(atts)
  {
    var midps, m := Midps(atts), |atts| / 2;
    CountAll(Id, midps, 0, TWO_64 / 2 - 1);
    MiddleMidp(midps, m, 0, TWO_64 / 2 - 1);
    if |atts| % 2 == 0 {
      MiddleMidp(midps, m - 1, 0, TWO_64 / 2 - 1);
    }
  }

  /** Faulty minority: when more than half of the attestations are honest, the synthesised time lies between the least
      and the greatest honest midpoint. */
  lemma FaultyMinorityHarmless(atts: seq<Attestation>, honest: set<nat>) returns (least: nat, greatest: nat)
    requires atts != [] && MedianFits(atts)
    requires (forall i :: i in honest ==> i < |atts|) && 2 * |honest| > |atts|
    ensures least in honest && greatest in honest
    ensures atts[least].midp <= SynthesiseTimestamp(atts).value.0 <= atts[greatest].midp
  {
    var midps := Midps(atts);
    least, greatest := Extremes(Id, midps, honest);
    forall i | i in honest
      ensures i < |midps| && midps[least] <= Id(midps[i]) <= midps[greatest]
    {
      assert Id(midps[least]) <= Id(midps[i]) <= Id(midps[greatest]);
    }
    CountHonest(Id, midps, honest, midps[least], midps[greatest]);
    MajorityMedian(midps, midps[least], midps[greatest]);
  }

  /** So if each honest midpoint is within u seconds of the true time, the synthesised time is too. */
  lemma HonestErrorBounds(atts: seq<Attestation>, honest: set<nat>, trueTime: int, u: nat)
    requires atts != [] && MedianFits(atts) && 2 * |honest| > |atts|
    requires forall i :: i in honest ==> i < |atts| && trueTime - u <= atts[i].midp <= trueTime + u
    ensures trueTime - u <= SynthesiseTimestamp(atts).value.0 <= trueTime + u
  {
    var midps := Midps(atts);
    forall i | i in honest
      ensures i < |midps| && trueTime - u <= Id(midps[i]) <= trueTime + u
    {
      assert midps[i] == atts[i].midp;
    }
    CountHonest(Id, midps, honest, trueTime - u, trueTime + u);
    MajorityMedian(midps, trueTime - u, trueTime + u);
  }

  // ---- The chain against a PoT time ----

  datatype PotCheck = Consistent(medianSecs: int) | Inconsistent(error: ChainError) | Panic

  function Distance(a: int, b: int): nat {
    if a >= b then a - b else b - a
  }

  /** The last step: the drift may not exceed the largest radius plus one. */
  function CheckDrift(secs: int, medianSecs: int, maxRadi: u32): PotCheck {
    if Distance(secs, medianSecs) > maxRadi + 1 then Inconsistent(TimestampDrift(Distance(secs, medianSecs)))
    else Consistent(medianSecs)
  }

  /** verify_chain_against_pot. */
  function VerifyChainAgainstPot(sha256: Hash, chain: Chain, tSynthNs: u64, expectedDigest: Digest): PotCheck {
    var atts := chain.attestations;
    if sha256(Transcript(atts)) != expectedDigest then Inconsistent(DigestMismatch)
    else if VerifyCausalOrdering(atts).Failure? then Inconsistent(VerifyCausalOrdering(atts).error)
    else if VerifySpread(atts).Failure? then Inconsistent(VerifySpread(atts).error)
    else if SynthesiseTimestamp(atts).None? then Panic
    else CheckDrift(tSynthNs / 1_000_000_000, SynthesiseTimestamp(atts).value.0, MaxRadi(atts))
  }

  /** At most some attestation's radius, plus one second. */
  predicate RadiusAllows(d: int, atts: seq<Attestation>) {
    exists i :: 0 <= i < |atts| && d <= atts[i].radi + 1
  }

  lemma RadiusAllowsExactly(d: int, atts: seq<Attestation>)
    requires atts != []
    ensures RadiusAllows(d, atts) <==> d <= MaxRadi(atts) + 1
  {
    MaxRadiIsLargest(atts);
    var i :| 0 <= i < |atts| && atts[i].radi == MaxRadi(atts);
  }

  /** What the check says of a non-empty chain that is ordered and close together. */
  lemma DriftMeans(atts: seq<Attestation>, secs: int, m: int)
    requires atts != []
    ensures var r := CheckDrift(secs, SynthesiseTimestamp(atts).value.0, MaxRadi(atts));
            && (r == Consistent(m) <==>
                  IsMedian(m, Midps(atts)) && RadiusAllows(secs - m, atts) && RadiusAllows(m - secs, atts))
            && (IsMedian(m, Midps(atts)) ==> forall d: nat :: r == Inconsistent(TimestampDrift(d)) <==>
                  (d == secs - m || d == m - secs) && !RadiusAllows(d, atts))
            && (r.Consistent? || (r.Inconsistent? && r.error.TimestampDrift?))
  {
    TimeMeans(atts, m);
    RadiusAllowsExactly(secs - m, atts);
    RadiusAllowsExactly(m - secs, atts);
  }

  /** verify_chain_against_pot answers Consistent(m) exactly when the digest is that of the chain's reports, the reports
      are ordered and at most two seconds apart, m is the median of a non-empty chain, and the whole seconds of the time
      are within the largest radius plus one of m. Otherwise it names the first of these that fails. */
  lemma VerdictMeans(sha256: Hash, chain: Chain, tSynthNs: u64, expectedDigest: Digest, m: int)
    ensures var atts, secs := chain.attestations, tSynthNs / 1_000_000_000;
            var r := VerifyChainAgainstPot(sha256, chain, tSynthNs, expectedDigest);
            var same := sha256(Transcript(atts)) == expectedDigest;
            && (r == Consistent(m) <==>
                  && same && InOrder(atts) && WithinTwo(atts) && atts != [] && IsMedian(m, Midps(atts))
                  && RadiusAllows(secs - m, atts) && RadiusAllows(m - secs, atts))
            && (r == Inconsistent(DigestMismatch) <==> !same)
            && (forall k :: r == Inconsistent(OrderingViolated(k)) <==> same && DisorderAt(atts, 0, k))
            && (forall d {:trigger Widest(atts, d)} :: r == Inconsistent(SpreadExceeded(d)) <==>
                  same && InOrder(atts) && Widest(atts, d) && d > 2)
            && (r == Panic <==> same && atts == [])
            && (IsMedian(m, Midps(atts)) ==> forall d: nat :: r == Inconsistent(TimestampDrift(d)) <==>
                  && same && InOrder(atts) && WithinTwo(atts) && atts != []
                  && (d == secs - m || d == m - secs) && !RadiusAllows(d, atts))
  {
    var atts := chain.attestations;
    CausalMeaning(atts, 0);
    SpreadMeaning(atts);
    if atts != [] {
      DriftMeans(atts, tSynthNs / 1_000_000_000, m);
    }
  }

  /** The time is within the largest radius plus three seconds of every midpoint. */
  predicate CloseToAll(secs: int, atts: seq<Attestation>)
    requires atts != []
  {
    forall i :: 0 <= i < |atts| ==> Distance(secs, atts[i].midp) <= MaxRadi(atts) + 3
  }

  lemma FittingMedianIsClose(atts: seq<Attestation>, secs: int)
    requires atts != [] && VerifySpread(atts).Success? && MedianFits(atts)
    requires Distance(secs, SynthesiseTimestamp(atts).value.0) <= MaxRadi(atts) + 1
    ensures CloseToAll(secs, atts)
  {
    MidpBounds(atts);
    CountAll(Id, Midps(atts), MinMidp(atts), MaxMidp(atts));
    MajorityMedian(Midps(atts), MinMidp(atts), MaxMidp(atts));
  }

  lemma WrappedMedianIsFar(atts: seq<Attestation>, secs: int)
    requires atts != [] && !MedianFits(atts)
    requires Distance(secs, SynthesiseTimestamp(atts).value.0) <= MaxRadi(atts) + 1
    ensures !CloseToAll(secs, atts)
  {
    var midps := Midps(atts);
    var upper := Sort(Id, midps)[|midps| / 2];
    SortAscends(midps);
    WrappedMedianIsLow(Sort(Id, midps));
    SortSorts(Id, midps);
    assert upper in multiset(midps);
    var i :| 0 <= i < |midps| && midps[i] == upper;
    assert Distance(secs, atts[i].midp) > MaxRadi(atts) + 3;
  }

  /** An accepted PoT time is, in whole seconds, within the largest radius plus three of every attestation, exactly when
      the chain's median did not wrap. */
  lemma AcceptedPotIsClose(sha256: Hash, chain: Chain, tSynthNs: u64, expectedDigest: Digest)
    requires VerifyChainAgainstPot(sha256, chain, tSynthNs, expectedDigest).Consistent?
    ensures chain.attestations != []
    ensures CloseToAll(tSynthNs / 1_000_000_000, chain.attestations) <==> MedianFits(chain.attestations)
  {
    if MedianFits(chain.attestations) {
      FittingMedianIsClose(chain.attestations, tSynthNs / 1_000_000_000);
    } else {
      WrappedMedianIsFar(chain.attestations, tSynthNs / 1_000_000_000);
    }
  }

  /** chain_to_timestamp_ns; the product is a u64 and wraps. */
  function ChainToTimestampNs(chain: Chain): Option<u64> {
    if SynthesiseTimestamp(chain.attestations).None? then None
    else Some(SynthesiseTimestamp(chain.attestations).value.0 * 1_000_000_000 % TWO_64)
  }

  /** The nanoseconds of the median, cut to 64 bits. */
  lemma NanosecondsMean(chain: Chain, m: int)
    requires IsMedian(m, Midps(chain.attestations))
    ensures ChainToTimestampNs(chain) == Some(m * 1_000_000_000 % 0x1_0000_0000_0000_0000)
  {
    var s: seq<int> :| Arranges(s, Midps(chain.attestations)) && s != [];
    assert |s| == |multiset(s)| == |Midps(chain.attestations)|;
    TimeMeans(chain.attestations, m);
  }

  /** Turning seconds into nanoseconds and back is harmless below 2^64 nanoseconds and loses centuries above. */
  lemma SecondsThroughNanoseconds(secs: nat)
    requires secs < TWO_64
    ensures var back := secs * 1_000_000_000 % TWO_64 / 1_000_000_000;
            if secs * 1_000_000_000 < TWO_64 then back == secs else secs - back > TWO_32
  {
    var ns := secs * 1_000_000_000;
    if ns >= TWO_64 {
      var back := ns % TWO_64 / 1_000_000_000;
      assert ns - ns % TWO_64 >= TWO_64;
      assert 1_000_000_000 * back <= ns % TWO_64;
    }
  }

  lemma MedianIsU64(atts: seq<Attestation>)
    requires atts != []
    ensures 0 <= SynthesiseTimestamp(atts).value.0 < TWO_64
  {
    SortAscends(Midps(atts));
  }

  /** A chain built without error is consistent with the time synthesised from it exactly while the nanoseconds fit in a
      u64, up to the year 2554. */
  lemma BuiltChainMatchesItsTime(sha256: Hash, atts: seq<Attestation>)
    requires BuildChainUnchecked(sha256, atts).Success?
    ensures var chain, secs := BuildChainUnchecked(sha256, atts).value, SynthesiseTimestamp(atts).value.0;
            VerifyChainAgainstPot(sha256, chain, ChainToTimestampNs(chain).value, chain.digest) == Consistent(secs)
            <==> secs * 1_000_000_000 < TWO_64
  {
    MedianIsU64(atts);
    SecondsThroughNanoseconds(SynthesiseTimestamp(atts).value.0);
  }
}
