/** Time synthesis and Proof of Time of src/time_synthesis.ts. */
module TimeSynthesis {
  import opened Wrappers
  import opened Median
  import opened NonceCache

  /** A source's answer: nanoseconds since the epoch, uncertainty in milliseconds. */
  datatype Reading = Reading(source: string, timestamp: int, uncertainty: real, stratum: int)

  /** What became of one source's request. */
  datatype Settled = Fulfilled(value: Reading) | Rejected

  const Timestamp: Reading -> int := (r: Reading) => r.timestamp

  /** The answers that arrived, in source order. */
  function Arrived(results: seq<Settled>): (readings: seq<Reading>)
    ensures |readings| <= |results|
  {
    if results == [] then []
    else Arrived(results[..|results| - 1]) +
         (match results[|results| - 1] case Fulfilled(r) => [r] case Rejected => [])
  }

  function AnswersBefore(results: seq<Settled>, i: nat): set<nat> {
    set j: nat | j < i && j < |results| && results[j].Fulfilled?
  }

  /** Every answer is there once, after the answers of the sources before it. */
  lemma {:induction false} ArrivedMeans(results: seq<Settled>, i: nat)
    requires i <= |results|
    ensures |Arrived(results)| == |AnswersBefore(results, |results|)|
    ensures i < |results| && results[i].Fulfilled? ==>
      var k := |AnswersBefore(results, i)|; k < |Arrived(results)| && Arrived(results)[k] == results[i].value
  {
    if results == [] {
      assert AnswersBefore(results, 0) == {};
    } else {
      var m := |results| - 1;
      ArrivedMeans(results[..m], if i < m then i else m);
      AnswersGrow(results, m);
      if i < m {
        assert AnswersBefore(results, i) == AnswersBefore(results[..m], i);
      } else if i == m {
        assert AnswersBefore(results, m) == AnswersBefore(results[..m], m);
      }
    }
  }

  lemma AnswersGrow(results: seq<Settled>, m: nat)
    requires |results| == m + 1
    ensures |AnswersBefore(results, m + 1)|
         == |AnswersBefore(results[..m], m)| + (if results[m].Fulfilled? then 1 else 0)
  {
    var before := AnswersBefore(results[..m], m);
    assert m !in before;
    assert AnswersBefore(results, m + 1) == before + (if results[m].Fulfilled? then {m} else {});
  }

  // ---- Selection ----

  datatype Selection = Selection(timestamp: int, uncertainty: real, stratum: int)

  /** BigInt division by 2n, which drops the fraction. */
  function Halve(x: int): int {
    if x >= 0 then x / 2 else -((-x) / 2)
  }

  function Min(a: int, b: int): int {
    if a <= b then a else b
  }

  /** The choice among sorted readings: the only one, the average of two, or the one in the middle. */
  function Select(sorted: seq<Reading>): Selection
    requires sorted != []
  {
    if |sorted| == 2 then
      Selection(Halve(sorted[0].timestamp + sorted[1].timestamp),
                (sorted[0].uncertainty + sorted[1].uncertainty) / 2.0,
                Min(sorted[0].stratum, sorted[1].stratum))
    else
      var mid := sorted[|sorted| / 2];
      Selection(mid.timestamp, mid.uncertainty, mid.stratum)
  }

  /** What a set of readings is synthesised to. */
  function Synthesis(readings: seq<Reading>): Selection
    requires readings != []
  {
    Select(Sort(Timestamp, readings))
  }

  // ---- What the choice is ----

  /** The readings before reading i: the earlier ones, and among those of the same time the ones that arrived first. */
  function Sooner(readings: seq<Reading>, i: nat): set<nat>
    requires i < |readings|
  {
    set j: nat | j < |readings| && (readings[j].timestamp < readings[i].timestamp
                                    || (readings[j].timestamp == readings[i].timestamp && j < i))
  }

  /** Two readings give half their sum, with its fraction dropped, their mean uncertainty and the smaller stratum. Any
      other number give, unchanged, the reading that half of all, rounded down, come before. */
  predicate Synthesised(readings: seq<Reading>, timestamp: int, uncertainty: real, stratum: int) {
    if |readings| == 2 then
      var a, b := readings[0], readings[1];
      var rest := a.timestamp + b.timestamp - 2 * timestamp;
      && (rest == 0 || (rest == 1 && timestamp >= 0) || (rest == -1 && timestamp <= 0))
      && 2.0 * uncertainty == a.uncertainty + b.uncertainty
      && stratum <= a.stratum && stratum <= b.stratum && (stratum == a.stratum || stratum == b.stratum)
    else
      exists i :: 0 <= i < |readings| && |Sooner(readings, i)| == |readings| / 2
                  && readings[i].timestamp == timestamp && readings[i].uncertainty == uncertainty
                  && readings[i].stratum == stratum
  }

  lemma SoonerIsBefore(readings: seq<Reading>, i: nat)
    requires i < |readings|
    ensures |Sooner(readings, i)| < |readings| && Sort(Timestamp, readings)[|Sooner(readings, i)|] == readings[i]
    ensures Sooner(readings, i) == Before(Timestamp, readings, i)
  {
    assert Sooner(readings, i) == Before(Timestamp, readings, i);
    SortPlaces(Timestamp, readings, i);
  }

  lemma SortTwo(a: Reading, b: Reading)
    ensures Sort(Timestamp, [a, b]) == if b.timestamp < a.timestamp then [b, a] else [a, b]
  {
    assert [a, b][..1] == [a];
    assert [a][..0] == [];
    assert Sort(Timestamp, [a]) == [a];
    assert Sort(Timestamp, [a, b]) == Insert(Timestamp, b, [a]);
    assert Insert(Timestamp, b, []) == [b];
  }

  lemma SynthesisMeans(readings: seq<Reading>)
    requires readings != []
    ensures var s := Synthesis(readings); Synthesised(readings, s.timestamp, s.uncertainty, s.stratum)
  {
    if |readings| == 2 {
      assert readings == [readings[0], readings[1]];
      SortTwo(readings[0], readings[1]);
    } else {
      var i := PlaceTaken(Timestamp, readings, |readings| / 2);
      SoonerIsBefore(readings, i);
    }
  }

  lemma SubsetSize(a: set<nat>, b: set<nat>)
    requires a <= b
    ensures |a| <= |b|
  {
    assert b == a + (b - a);
  }

  /** At most half of the readings are earlier than the chosen one, and more than half are no later. */
  lemma MiddleHalves(readings: seq<Reading>, i: nat)
    requires i < |readings| && |Sooner(readings, i)| == |readings| / 2
    ensures var earlier := set j: nat | j < |readings| && readings[j].timestamp < readings[i].timestamp;
            |earlier| <= |readings| / 2
    ensures var noLater := set j: nat | j < |readings| && readings[j].timestamp <= readings[i].timestamp;
            |noLater| >= |readings| / 2 + 1
  {
    var earlier := set j: nat | j < |readings| && readings[j].timestamp < readings[i].timestamp;
    var noLater := set j: nat | j < |readings| && readings[j].timestamp <= readings[i].timestamp;
    SubsetSize(earlier, Sooner(readings, i));
    assert i !in Sooner(readings, i);
    SubsetSize(Sooner(readings, i) + {i}, noLater);
  }

  /** A range that holds more than half of the readings holds the synthesised time. */
  lemma MajorityRangeHolds(readings: seq<Reading>, lo: int, hi: int)
    requires readings != [] && 2 * CountIn(Timestamp, readings, lo, hi) > |readings|
    ensures lo <= Synthesis(readings).timestamp <= hi
  {
    var sorted := Sort(Timestamp, readings);
    SortSorts(Timestamp, readings);
    SortCounts(Timestamp, readings, lo, hi);
    MiddleInRange(Timestamp, sorted, |sorted| / 2, lo, hi);
    if |sorted| == 2 {
      MiddleInRange(Timestamp, sorted, 0, lo, hi);
    }
  }

  /** Faulty minority: when more than half of the readings are honest, whatever the others say, the synthesised time
      lies between the least and the greatest honest reading. */
  lemma FaultyMinorityHarmless(readings: seq<Reading>, honest: set<nat>) returns (least: nat, greatest: nat)
    requires (forall i :: i in honest ==> i < |readings|) && 2 * |honest| > |readings|
    ensures least in honest && greatest in honest
    ensures readings[least].timestamp <= Synthesis(readings).timestamp <= readings[greatest].timestamp
  {
    least, greatest := Extremes(Timestamp, readings, honest);
    CountHonest(Timestamp, readings, honest, readings[least].timestamp, readings[greatest].timestamp);
    MajorityRangeHolds(readings, readings[least].timestamp, readings[greatest].timestamp);
  }

  /** So if each honest reading is within u of the true time, the synthesised time is too. */
  lemma HonestErrorBounds(readings: seq<Reading>, honest: set<nat>, trueTime: int, u: nat)
    requires 2 * |honest| > |readings|
    requires forall i :: i in honest ==> i < |readings| && trueTime - u <= readings[i].timestamp <= trueTime + u
    ensures trueTime - u <= Synthesis(readings).timestamp <= trueTime + u
  {
    CountHonest(Timestamp, readings, honest, trueTime - u, trueTime + u);
    MajorityRangeHolds(readings, trueTime - u, trueTime + u);
  }

  // ---- Proof of Time ----

  datatype SourceReading = SourceReading(source: string, timestamp: int, uncertainty: real, stratum: Option<int>)

  datatype ProofOfTime = ProofOfTime(timestamp: int, uncertainty: real, sources: nat, stratum: int, confidence: real,
                                     sourceReadings: seq<SourceReading>, nonce: string, expiresAt: int)

  datatype SynthesizedTime = SynthesizedTime(timestamp: int, confidence: real, uncertainty: real, sources: nat,
      stratum: int)

  function ToleranceForStratum(stratum: int): int {
    if stratum <= 1 then 10_000_000 else if stratum == 2 then 25_000_000 else 50_000_000
  }

  /** The least of the PoT's own stratum and those its readings state. */
  function LowestStratum(own: int, readings: seq<SourceReading>): int {
    if readings == [] then own
    else
      var before, last := LowestStratum(own, readings[..|readings| - 1]), readings[|readings| - 1];
      if last.stratum.Some? && last.stratum.value < before then last.stratum.value else before
  }

  /** Math.round of the uncertainty in nanoseconds. */
  function OwnTolerance(uncertainty: real): int {
    (uncertainty * 1_000_000.0 + 0.5).Floor
  }

  /** A reading is as far from the PoT's time as the larger of the stratum floor and its own uncertainty allows. */
  predicate Tolerated(timestamp: int, floor: int, r: SourceReading) {
    var diff := if r.timestamp > timestamp then r.timestamp - timestamp else timestamp - r.timestamp;
    diff <= OwnTolerance(r.uncertainty) || diff <= floor
  }

  predicate AllTolerated(pot: ProofOfTime) {
    var floor := ToleranceForStratum(LowestStratum(pot.stratum, pot.sourceReadings));
    forall i :: 0 <= i < |pot.sourceReadings| ==> Tolerated(pot.timestamp, floor, pot.sourceReadings[i])
  }

  /** Neither the PoT nor any reading that has a stratum is below this one. */
  predicate NoneBelow(pot: ProofOfTime, stratum: int) {
    pot.stratum >= stratum && forall k :: 0 <= k < |pot.sourceReadings| && pot.sourceReadings[k].stratum.Some? ==>
      pot.sourceReadings[k].stratum.value >= stratum
  }

  /** Reading i is within its own uncertainty, in milliseconds, rounded to a nanosecond, or within 10 ms; within 25 ms
      if nothing is of stratum 1 or below, and within 50 ms if nothing is of stratum 2 or below. */
  predicate Near(pot: ProofOfTime, i: nat)
    requires i < |pot.sourceReadings|
  {
    var r := pot.sourceReadings[i];
    var d := if r.timestamp < pot.timestamp then pot.timestamp - r.timestamp else r.timestamp - pot.timestamp;
    || d as real <= r.uncertainty * 1_000_000.0 + 0.5
    || d <= 10_000_000 || (d <= 25_000_000 && NoneBelow(pot, 2)) || (d <= 50_000_000 && NoneBelow(pot, 3))
  }

  lemma {:induction false} LowestMeans(own: int, readings: seq<SourceReading>, stratum: int)
    ensures LowestStratum(own, readings) >= stratum <==>
      && own >= stratum
      && forall k :: 0 <= k < |readings| && readings[k].stratum.Some? ==> readings[k].stratum.value >= stratum
  {
    if readings != [] {
      LowestMeans(own, readings[..|readings| - 1], stratum);
    }
  }

  lemma RoundedBelow(d: int, x: real)
    ensures d <= x.Floor <==> d as real <= x
  {
  }

  lemma NearExactly(pot: ProofOfTime, i: nat)
    requires i < |pot.sourceReadings|
    ensures var floor := ToleranceForStratum(LowestStratum(pot.stratum, pot.sourceReadings));
            Tolerated(pot.timestamp, floor, pot.sourceReadings[i]) <==> Near(pot, i)
  {
    LowestMeans(pot.stratum, pot.sourceReadings, 2);
    LowestMeans(pot.stratum, pot.sourceReadings, 3);
    var r := pot.sourceReadings[i];
    var d := if r.timestamp < pot.timestamp then pot.timestamp - r.timestamp else r.timestamp - pot.timestamp;
    RoundedBelow(d, r.uncertainty * 1_000_000.0 + 0.5);
  }

  /** What verifyProofOfTime accepts, from the PoT, the cache and the clock. */
  predicate Acceptable(pot: ProofOfTime, cache: seq<Entry>, checkedAt: int, now: int) {
    && |pot.sourceReadings| > 0 && pot.confidence > 0.0 && checkedAt <= pot.expiresAt
    && !Known(cache, pot.nonce, now) && forall i :: 0 <= i < |pot.sourceReadings| ==> Near(pot, i)
  }

  /** The checks that come before the nonce cache. */
  predicate Screened(pot: ProofOfTime, checkedAt: int) {
    pot.sourceReadings != [] && pot.confidence > 0.0 && checkedAt <= pot.expiresAt
  }

  // ---- Runs of verifyProofOfTime on one instance ----

  /** One call, with the two clock readings it makes: for the expiry and for the cache. */
  datatype Attempt = Attempt(pot: ProofOfTime, checkedAt: int, recordedAt: int)

  function Step(l: Ledger, a: Attempt): Ledger {
    if Screened(a.pot, a.checkedAt) then Check(l, a.pot.nonce, a.recordedAt) else l
  }

  predicate Records(l: Ledger, a: Attempt) {
    Screened(a.pot, a.checkedAt) && !Has(Cleaned(l.cache, a.recordedAt), a.pot.nonce)
  }

  /** The result of the call: the nonce is recorded before the readings are compared. */
  predicate Accepts(l: Ledger, a: Attempt) {
    Records(l, a) && AllTolerated(a.pot)
  }

  lemma AcceptsMeans(l: Ledger, a: Attempt)
    ensures Accepts(l, a) <==> Acceptable(a.pot, l.cache, a.checkedAt, a.recordedAt)
    ensures Records(l, a) <==>
      && a.pot.sourceReadings != [] && a.pot.confidence > 0.0 && a.checkedAt <= a.pot.expiresAt
      && !Known(l.cache, a.pot.nonce, a.recordedAt)
    ensures Step(l, a).log == if Records(l, a) then l.log + [Entry(a.pot.nonce, a.recordedAt)] else l.log
  {
    FoundIfKnown(l.cache, a.pot.nonce, a.recordedAt);
    forall i | 0 <= i < |a.pot.sourceReadings|
      ensures var floor := ToleranceForStratum(LowestStratum(a.pot.stratum, a.pot.sourceReadings));
              Tolerated(a.pot.timestamp, floor, a.pot.sourceReadings[i]) <==> Near(a.pot, i)
    {
      NearExactly(a.pot, i);
    }
  }

  function After(start: int, attempts: seq<Attempt>, n: nat): Ledger
    requires n <= |attempts|
  {
    if n == 0 then Ledger([], [], start) else Step(After(start, attempts, n - 1), attempts[n - 1])
  }

  /** The clock never goes back, within a call or between calls. */
  predicate Monotone(start: int, attempts: seq<Attempt>) {
    && (forall i :: 0 <= i < |attempts| ==> start <= attempts[i].checkedAt <= attempts[i].recordedAt)
    && (forall i, j :: 0 <= i < j < |attempts| ==> attempts[i].recordedAt <= attempts[j].checkedAt)
  }

  lemma StepIsSound(l: Ledger, a: Attempt)
    requires Sound(l) && l.clock <= a.recordedAt
    ensures Sound(Step(l, a)) && Step(l, a).clock <= a.recordedAt
  {
    if Screened(a.pot, a.checkedAt) {
      CheckKeepsSound(l, a.pot.nonce, a.recordedAt);
    }
  }

  /** Where the clock of the run stands before call n. */
  lemma ClockBefore(start: int, attempts: seq<Attempt>, n: nat)
    requires n < |attempts| && Monotone(start, attempts)
    ensures (if n == 0 then start else attempts[n - 1].recordedAt) <= attempts[n].recordedAt
  {
  }

  lemma {:induction false} RunIsSound(start: int, attempts: seq<Attempt>, n: nat)
    requires n <= |attempts| && Monotone(start, attempts)
    ensures Sound(After(start, attempts, n))
    ensures After(start, attempts, n).clock <= (if n == 0 then start else attempts[n - 1].recordedAt)
  {
    if n > 0 {
      RunIsSound(start, attempts, n - 1);
      ClockBefore(start, attempts, n - 1);
      StepIsSound(After(start, attempts, n - 1), attempts[n - 1]);
    }
  }

  lemma {:induction false} LogGrows(start: int, attempts: seq<Attempt>, m: nat, n: nat)
    requires m <= n <= |attempts|
    ensures After(start, attempts, m).log <= After(start, attempts, n).log
  {
    if m < n {
      LogGrows(start, attempts, m, n - 1);
    }
  }

  /** Over any run, the nonce recorded by call i is recorded again by a later call j only after its TTL or after 10,000
      later recordings. */
  lemma NonceReturnsLate(start: int, attempts: seq<Attempt>, i: nat, j: nat)
    requires i < j < |attempts| && Monotone(start, attempts)
    requires attempts[i].pot.nonce == attempts[j].pot.nonce
    requires Records(After(start, attempts, i), attempts[i]) && Records(After(start, attempts, j), attempts[j])
    ensures attempts[j].recordedAt - attempts[i].recordedAt > 300_000
         || |After(start, attempts, j).log| - |After(start, attempts, i + 1).log| >= 10_000
  {
    var l, p := After(start, attempts, j), |After(start, attempts, i).log|;
    LogGrows(start, attempts, i + 1, j);
    assert After(start, attempts, i + 1).log[p] == l.log[p] == Entry(attempts[i].pot.nonce, attempts[i].recordedAt);
    RunIsSound(start, attempts, j);
    assert attempts[j - 1].recordedAt <= attempts[j].recordedAt;
    if attempts[j].recordedAt - l.log[p].at <= 300_000 && |l.log| - 1 - p < 10_000 {
      RecordedIsFound(l, p, attempts[j].recordedAt);
    }
  }

  /** Replay: within fewer than 10,000 later recordings, a PoT whose expiry lies within the TTL of its nonce's first
      recording is never accepted again. The lag is the time that passes between the two clock readings of the later
      call. */
  lemma NoReplay(start: int, attempts: seq<Attempt>, i: nat, j: nat)
    requires i < j < |attempts| && Monotone(start, attempts)
    requires attempts[i].pot.nonce == attempts[j].pot.nonce && Records(After(start, attempts, i), attempts[i])
    requires |After(start, attempts, j).log| - |After(start, attempts, i + 1).log| < 10_000
    requires var lag := attempts[j].recordedAt - attempts[j].checkedAt;
             attempts[j].pot.expiresAt + lag <= attempts[i].recordedAt + 300_000
    ensures !Accepts(After(start, attempts, j), attempts[j])
  {
    if Accepts(After(start, attempts, j), attempts[j]) {
      NonceReturnsLate(start, attempts, i, j);
    }
  }

  const POT_LIFETIME_MS := 60_000

  /** A generated PoT records its nonce when it verifies itself, so its own instance never accepts it again while fewer
      than 10,000 nonces follow and the later call's two clock readings are at most four minutes apart. */
  lemma IssuedIsSpent(start: int, attempts: seq<Attempt>, i: nat, j: nat, issuedAt: int)
    requires i < j < |attempts| && Monotone(start, attempts)
    requires issuedAt <= attempts[i].checkedAt && attempts[i].pot.expiresAt == issuedAt + 60_000
    requires Accepts(After(start, attempts, i), attempts[i]) && attempts[j].pot == attempts[i].pot
    requires |After(start, attempts, j).log| - |After(start, attempts, i + 1).log| < 10_000
    requires attempts[j].recordedAt - attempts[j].checkedAt <= 240_000
    ensures !Accepts(After(start, attempts, j), attempts[j])
  {
    NoReplay(start, attempts, i, j);
  }

  function SignedReadings(readings: seq<Reading>): (s: seq<SourceReading>)
    ensures |s| == |readings|
  {
    seq(|readings|, i requires 0 <= i < |readings| =>
      SourceReading(readings[i].source, readings[i].timestamp, readings[i].uncertainty, Some(readings[i].stratum)))
  }

  /** The PoT for these readings of so many asked sources: the synthesised time, with every reading in it. */
  function Issued(readings: seq<Reading>, asked: nat, nonce: string, issuedAt: int): ProofOfTime
    requires readings != [] && asked > 0
  {
    var s := Synthesis(readings);
    ProofOfTime(s.timestamp, s.uncertainty, |readings|, s.stratum, |readings| as real / asked as real,
                SignedReadings(Sort(Timestamp, readings)), nonce, issuedAt + POT_LIFETIME_MS)
  }

  /** The PoT states the synthesised time, the share of the asked sources that answered, every reading at its place in
      time, the nonce, and an expiry a minute after issue. */
  predicate StatesTime(pot: ProofOfTime, readings: seq<Reading>, asked: nat, nonce: string, issuedAt: int) {
    && Synthesised(readings, pot.timestamp, pot.uncertainty, pot.stratum)
    && pot.sources == |readings| == |pot.sourceReadings| && pot.confidence * asked as real == |readings| as real
    && pot.nonce == nonce && pot.expiresAt == issuedAt + 60_000
    && forall i :: 0 <= i < |readings| ==> ReadAt(pot, readings, i)
  }

  predicate ReadAt(pot: ProofOfTime, readings: seq<Reading>, i: nat)
    requires i < |readings|
  {
    var r, k := readings[i], |Sooner(readings, i)|;
    k < |pot.sourceReadings| && pot.sourceReadings[k] == SourceReading(r.source, r.timestamp, r.uncertainty,
        Some(r.stratum))
  }

  lemma IssuedReadsAt(pot: ProofOfTime, readings: seq<Reading>, i: nat)
    requires i < |readings| && pot.sourceReadings == SignedReadings(Sort(Timestamp, readings))
    ensures ReadAt(pot, readings, i)
  {
    SoonerIsBefore(readings, i);
  }

  lemma IssuedMeans(readings: seq<Reading>, asked: nat, nonce: string, issuedAt: int)
    requires readings != [] && asked > 0
    ensures StatesTime(Issued(readings, asked, nonce, issuedAt), readings, asked, nonce, issuedAt)
  {
    SynthesisMeans(readings);
    forall i | 0 <= i < |readings|
      ensures ReadAt(Issued(readings, asked, nonce, issuedAt), readings, i)
    {
      IssuedReadsAt(Issued(readings, asked, nonce, issuedAt), readings, i);
    }
    Share(|readings| as real, asked as real);
  }

  lemma Share(a: real, b: real)
    requires b > 0.0
    ensures a / b * b == a
  {
  }

  // ---- The class ----

  datatype PotError = AllSourcesFailed | SelfVerificationFailed

  class TimeSynthesis {
    var usedNonces: seq<Entry>

    /** Everything recorded since construction or close, and the last time the cache was used. */
    ghost var log: seq<Entry>
    ghost var clock: int

    ghost function State(): Ledger
      reads this
    {
      Ledger(usedNonces, log, clock)
    }

    ghost predicate Valid()
      reads this
    {
      Sound(State())
    }

    constructor (ghost now: int)
      ensures Valid() && usedNonces == [] && log == [] && clock == now
    {
      usedNonces, log, clock := [], [], now;
    }

    /** The fulfilled results, collected in order. */
    method Collect(results: seq<Settled>) returns (readings: seq<Reading>)
      ensures readings == Arrived(results)
    {
      readings := [];
      for i := 0 to |results|
        invariant readings == Arrived(results[..i])
      {
        assert results[..i + 1][..i] == results[..i];
        if results[i].Fulfilled? {
          readings := readings + [results[i].value];
        }
      }
      assert results[..|results|] == results;
    }

    /** synthesize: None is the error that all sources failed. */
    method Synthesize(results: seq<Settled>) returns (r: Option<SynthesizedTime>)
      ensures r.None? <==> Arrived(results) == []
      ensures r.Some? ==>
        && Selection(r.value.timestamp, r.value.uncertainty, r.value.stratum) == Synthesis(Arrived(results))
        && r.value.sources == |Arrived(results)| && |results| > 0
        && r.value.confidence == |Arrived(results)| as real / |results| as real
        && Synthesised(Arrived(results), r.value.timestamp, r.value.uncertainty, r.value.stratum)
      ensures r.Some? ==> forall lo, hi :: 2 * CountIn(Timestamp, Arrived(results), lo, hi) > |Arrived(results)| ==>
        lo <= r.value.timestamp <= hi
    {
      var readings := Collect(results);
      if |readings| == 0 {
        return None;
      }
      if |readings| == 1 {
        SortOne(readings);
        r := Some(SynthesizedTime(readings[0].timestamp, 1.0 / |results| as real, readings[0].uncertainty, 1,
            readings[0].stratum));
      } else {
        var s := Select(Sort(Timestamp, readings));
        r := Some(SynthesizedTime(s.timestamp, |readings| as real / |results| as real, s.uncertainty, |readings|,
            s.stratum));
      }
      SynthesisMeans(readings);
      forall lo, hi | 2 * CountIn(Timestamp, readings, lo, hi) > |readings|
        ensures lo <= r.value.timestamp <= hi
      {
        MajorityRangeHolds(readings, lo, hi);
      }
    }

    lemma SortOne(readings: seq<Reading>)
      requires |readings| == 1
      ensures Sort(Timestamp, readings) == readings
    {
      assert readings[..0] == [];
    }

    /** generateProofOfTime; the clock is read for the expiry and then twice more by the self-verification. It fails
        exactly when no source answered, the nonce is a duplicate, or a reading strays too far from the median. */
    method GenerateProofOfTime(results: seq<Settled>, nonce: string, issuedAt: int, checkedAt: int, now: int)
        returns (r: Result<ProofOfTime, PotError>)
      requires Valid() && clock <= issuedAt <= checkedAt <= now
      modifies this
      ensures Valid()
      ensures Arrived(results) == [] ==> r == Failure(AllSourcesFailed) && State() == old(State())
      ensures Arrived(results) != [] ==>
        var pot := Issued(Arrived(results), |results|, nonce, issuedAt);
        && State() == Step(old(State()), Attempt(pot, checkedAt, now))
        && r == if Accepts(old(State()), Attempt(pot, checkedAt, now)) then Success(pot)
        else Failure(SelfVerificationFailed)
      ensures r.Success? <==>
        && Arrived(results) != []
        && Acceptable(Issued(Arrived(results), |results|, nonce, issuedAt), old(usedNonces), checkedAt, now)
      ensures r.Success? ==> StatesTime(r.value, Arrived(results), |results|, nonce, issuedAt)
      ensures r.Success? ==> log == old(log) + [Entry(nonce, now)] && clock == now
    {
      var readings := Collect(results);
      if |readings| == 0 {
        return Failure(AllSourcesFailed);
      }
      var sorted := Sort(Timestamp, readings);
      var s := Select(sorted);
      var sourceReadings := SignedReadings(sorted);
      var pot := ProofOfTime(s.timestamp, s.uncertainty, |readings|, s.stratum, |readings| as real / |results| as real,
                             sourceReadings, nonce, issuedAt + POT_LIFETIME_MS);
      IssuedMeans(readings, |results|, nonce, issuedAt);
      AcceptsMeans(State(), Attempt(pot, checkedAt, now));
      var ok := VerifyProofOfTime(pot, checkedAt, now);
      return if ok then Success(pot) else Failure(SelfVerificationFailed);
    }

    /** Accepts exactly the PoTs that have readings and confidence, have not expired, bring a nonce the cleaned cache
        does not hold, and stay near their readings. The nonce is recorded even if a reading is then too far away. */
    method VerifyProofOfTime(pot: ProofOfTime, checkedAt: int, now: int) returns (ok: bool)
      requires Valid() && clock <= checkedAt <= now
      modifies this
      ensures ok <==>
        && |pot.sourceReadings| > 0 && pot.confidence > 0.0 && checkedAt <= pot.expiresAt
        && !Known(old(usedNonces), pot.nonce, now)
        && forall i :: 0 <= i < |pot.sourceReadings| ==> Near(pot, i)
      ensures log == if pot.sourceReadings != [] && pot.confidence > 0.0 && checkedAt <= pot.expiresAt
                        && !Known(old(usedNonces), pot.nonce, now)
                     then old(log) + [Entry(pot.nonce, now)] else old(log)
      ensures Valid() && State() == Step(old(State()), Attempt(pot, checkedAt, now))
      ensures ok <==> Accepts(old(State()), Attempt(pot, checkedAt, now))
    {
      AcceptsMeans(State(), Attempt(pot, checkedAt, now));
      if |pot.sourceReadings| == 0 || pot.confidence <= 0.0 {
        return false;
      }
      var lowest := Lowest(pot);
      var floor := ToleranceForStratum(lowest);
      if checkedAt > pot.expiresAt {
        return false;
      }
      CheckKeepsSound(State(), pot.nonce, now);
      var isNew := CheckNonce(pot.nonce, now);
      if !isNew {
        return false;
      }
      ok := CompareReadings(pot, floor);
    }

    /** The loop that finds the lowest stratum. */
    method Lowest(pot: ProofOfTime) returns (lowest: int)
      ensures lowest == LowestStratum(pot.stratum, pot.sourceReadings)
    {
      lowest := pot.stratum;
      for i := 0 to |pot.sourceReadings|
        invariant lowest == LowestStratum(pot.stratum, pot.sourceReadings[..i])
      {
        assert pot.sourceReadings[..i + 1][..i] == pot.sourceReadings[..i];
        var stratum := pot.sourceReadings[i].stratum;
        if stratum.Some? && stratum.value < lowest {
          lowest := stratum.value;
        }
      }
      assert pot.sourceReadings[..|pot.sourceReadings|] == pot.sourceReadings;
    }

    /** The loop that compares the readings with the PoT's time. */
    method CompareReadings(pot: ProofOfTime, floor: int) returns (ok: bool)
      ensures ok <==> forall i :: 0 <= i < |pot.sourceReadings| ==>
        Tolerated(pot.timestamp, floor, pot.sourceReadings[i])
    {
      for i := 0 to |pot.sourceReadings|
        invariant forall k :: 0 <= k < i ==> Tolerated(pot.timestamp, floor, pot.sourceReadings[k])
      {
        if !Tolerated(pot.timestamp, floor, pot.sourceReadings[i]) {
          return false;
        }
      }
      return true;
    }

    /** The cache part of verifyProofOfTime: false for a duplicate. */
    method CheckNonce(nonce: string, now: int) returns (isNew: bool)
      modifies this
      ensures State() == Check(old(State()), nonce, now)
      ensures isNew <==> !Has(Cleaned(old(usedNonces), now), nonce)
      ensures isNew <==> !Known(old(usedNonces), nonce, now)
      ensures log == if isNew then old(log) + [Entry(nonce, now)] else old(log)
    {
      FoundIfKnown(usedNonces, nonce, now);
      clock := now;
      if |usedNonces| > MAX_NONCE_CACHE / 2 {
        usedNonces := Unexpired(usedNonces, now);
      }
      if Has(usedNonces, nonce) {
        return false;
      }
      if |usedNonces| >= MAX_NONCE_CACHE {
        usedNonces := usedNonces[1..];
      }
      usedNonces := usedNonces + [Entry(nonce, now)];
      log := log + [Entry(nonce, now)];
      return true;
    }

    method Close()
      requires Valid()
      modifies this
      ensures Valid() && usedNonces == [] && log == [] && clock == old(clock)
    {
      usedNonces, log := [], [];
    }
  }
}
