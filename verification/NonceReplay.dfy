/** The bounds of the nonce cache of src/time_synthesis.ts are needed: runs in which a PoT is accepted twice. */
module NonceReplay {
  import opened Wrappers
  import opened NonceCache
  import opened TimeSynthesis

  /** The first n calls are made at one moment and each brings a PoT with a nonce of its own that passes the checks
      before the cache. */
  predicate Burst(start: int, attempts: seq<Attempt>, n: nat)
    requires n <= |attempts|
  {
    && (forall i {:trigger At(attempts[i], start)} :: 0 <= i < n ==> At(attempts[i], start))
    && (forall k {:trigger NewNonce(attempts, k)} :: 0 <= k < n ==> NewNonce(attempts, k))
  }

  /** No call before k has its nonce. */
  predicate NewNonce(attempts: seq<Attempt>, k: nat)
    requires k < |attempts|
  {
    forall i :: 0 <= i < k ==> attempts[i].pot.nonce != attempts[k].pot.nonce
  }

  predicate At(a: Attempt, time: int) {
    a.checkedAt == a.recordedAt == time && Screened(a.pot, time)
  }

  function Max0(x: int): nat {
    if x > 0 then x else 0
  }

  /** The ledger of n recordings at one moment: all in the log, the last 10,000 in the cache. */
  predicate Filled(l: Ledger, start: int, attempts: seq<Attempt>, n: nat)
    requires n <= |attempts|
  {
    && |l.log| == n && l.cache == l.log[Max0(n - 10_000)..]
    && forall i :: 0 <= i < n ==> l.log[i] == Entry(attempts[i].pot.nonce, start)
  }

  lemma FreshIsKept(cache: seq<Entry>, now: int)
    requires forall i :: 0 <= i < |cache| ==> cache[i].at == now
    ensures Cleaned(cache, now) == cache
  {
    AllUnexpired(cache, now);
  }

  lemma NewNonceRecorded(l: Ledger, nonce: string, start: int)
    requires forall i :: 0 <= i < |l.cache| ==> l.cache[i].at == start && l.cache[i].nonce != nonce
    ensures Check(l, nonce, start) == Ledger(Added(l.cache, nonce, start), l.log + [Entry(nonce, start)], start)
  {
    FreshIsKept(l.cache, start);
  }

  lemma CacheIsOther(l: Ledger, start: int, attempts: seq<Attempt>, n: nat)
    requires n < |attempts| && Burst(start, attempts, n + 1) && Filled(l, start, attempts, n)
    ensures forall i :: 0 <= i < |l.cache| ==> l.cache[i].at == start && l.cache[i].nonce != attempts[n].pot.nonce
  {
    var dropped := Max0(n - 10_000);
    assert NewNonce(attempts, n);
    forall i | 0 <= i < |l.cache|
      ensures l.cache[i].at == start && l.cache[i].nonce != attempts[n].pot.nonce
    {
      assert l.cache[i] == l.log[dropped + i];
    }
  }

  lemma FilledOneMore(l: Ledger, start: int, attempts: seq<Attempt>, n: nat, next: Ledger)
    requires n < |attempts| && Filled(l, start, attempts, n)
    requires next.log == l.log + [Entry(attempts[n].pot.nonce, start)]
    requires next.cache == Added(l.cache, attempts[n].pot.nonce, start)
    ensures Filled(next, start, attempts, n + 1)
  {
    OneMore(l.log, l.cache, Entry(attempts[n].pot.nonce, start));
  }

  lemma FilledStep(l: Ledger, start: int, attempts: seq<Attempt>, n: nat)
    requires n < |attempts| && Burst(start, attempts, n + 1) && Filled(l, start, attempts, n)
    ensures Filled(Step(l, attempts[n]), start, attempts, n + 1)
  {
    CacheIsOther(l, start, attempts, n);
    NewNonceRecorded(l, attempts[n].pot.nonce, start);
    assert At(attempts[n], start);
    FilledOneMore(l, start, attempts, n, Step(l, attempts[n]));
  }

  lemma OneMore(log: seq<Entry>, cache: seq<Entry>, e: Entry)
    requires cache == log[Max0(|log| - 10_000)..]
    ensures (if |cache| >= 10_000 then cache[1..] else cache) + [e]
      == (log + [e])[Max0(|log| + 1 - 10_000)..]
  {
  }

  lemma ShorterBurst(start: int, attempts: seq<Attempt>, n: nat)
    requires 0 < n <= |attempts| && Burst(start, attempts, n)
    ensures Burst(start, attempts, n - 1)
  {
  }

  lemma {:induction false} FilledLedger(start: int, attempts: seq<Attempt>, n: nat) returns (l: Ledger)
    requires n <= |attempts| && Burst(start, attempts, n)
    ensures l == After(start, attempts, n) && Filled(l, start, attempts, n)
  {
    l := Ledger([], [], start);
    if n > 0 {
      ShorterBurst(start, attempts, n);
      var before := FilledLedger(start, attempts, n - 1);
      FilledStep(before, start, attempts, n - 1);
      l := Step(before, attempts[n - 1]);
    }
  }

  lemma BurstFills(start: int, attempts: seq<Attempt>, n: nat)
    requires n <= |attempts| && Burst(start, attempts, n)
    ensures Filled(After(start, attempts, n), start, attempts, n)
  {
    var _ := FilledLedger(start, attempts, n);
  }

  lemma FirstAccepted(start: int, attempts: seq<Attempt>)
    requires |attempts| > 0 && Burst(start, attempts, 1) && AllTolerated(attempts[0].pot)
    ensures Accepts(After(start, attempts, 0), attempts[0])
  {
    assert At(attempts[0], start);
  }

  /** Eviction: after exactly 10,000 further recordings the PoT is accepted again, in the same millisecond. */
  lemma EvictedIsAcceptedAgain(start: int, attempts: seq<Attempt>)
    requires |attempts| == 10_000 + 2 && Burst(start, attempts, 10_000 + 1)
    requires AllTolerated(attempts[0].pot) && attempts[10_000 + 1] == attempts[0]
    ensures var j := 10_000 + 1;
            && |After(start, attempts, j).log| - |After(start, attempts, 1).log| == 10_000
            && Accepts(After(start, attempts, 0), attempts[0]) && Accepts(After(start, attempts, j), attempts[j])
  {
    var j := 10_000 + 1;
    FirstAccepted(start, attempts);
    BurstFills(start, attempts, 1);
    BurstFills(start, attempts, j);
    var l := After(start, attempts, j);
    assert At(attempts[0], start);
    forall i | 0 <= i < |l.cache|
      ensures l.cache[i].at == start && l.cache[i].nonce != attempts[0].pot.nonce
    {
      assert l.cache[i] == l.log[1 + i] && NewNonce(attempts, 1 + i);
    }
    FreshIsKept(l.cache, start);
  }

  lemma AllExpire(l: Ledger, start: int, attempts: seq<Attempt>, n: nat)
    requires n <= |attempts| && n <= 10_000 && Filled(l, start, attempts, n)
    ensures |l.cache| == n && Unexpired(l.cache, start + 300_000 + 1) == []
  {
    forall i | 0 <= i < |l.cache|
      ensures !Fresh(l.cache[i], start + 300_000 + 1)
    {
      assert l.cache[i] == l.log[i];
    }
    NoneUnexpired(l.cache, start + 300_000 + 1);
  }

  /** Expiry: with the cache more than half full, a PoT is accepted again if the cache is looked at one millisecond
      after the TTL, whenever before its own expiry was checked. */
  lemma ExpiredIsAcceptedAgain(start: int, attempts: seq<Attempt>, n: nat)
    requires 5_000 < n <= 10_000 && |attempts| == n + 1 && Burst(start, attempts, n)
    requires AllTolerated(attempts[0].pot) && attempts[n].pot == attempts[0].pot
    requires Screened(attempts[n].pot, attempts[n].checkedAt) && attempts[n].recordedAt == start + 300_000 + 1
    ensures Accepts(After(start, attempts, 0), attempts[0]) && Accepts(After(start, attempts, n), attempts[n])
  {
    FirstAccepted(start, attempts);
    BurstFills(start, attempts, n);
    AllExpire(After(start, attempts, n), start, attempts, n);
  }

  // ---- Such runs exist ----

  function Named(k: nat, expiresAt: int): ProofOfTime {
    ProofOfTime(0, 0.0, 1, 1, 1.0, [SourceReading("", 0, 0.0, None)], seq(k, _ => 'a'), expiresAt)
  }

  /** n PoTs under different nonces, presented together. */
  function Volley(start: int, n: nat, expiresAt: int): (attempts: seq<Attempt>)
    ensures |attempts| == n
  {
    seq(n, k requires 0 <= k < n => Attempt(Named(k, expiresAt), start, start))
  }

  lemma VolleyIsBurst(start: int, n: nat, expiresAt: int, last: Attempt)
    requires start <= expiresAt
    ensures Burst(start, Volley(start, n, expiresAt) + [last], n)
    ensures n > 0 ==> AllTolerated((Volley(start, n, expiresAt) + [last])[0].pot)
  {
    var attempts := Volley(start, n, expiresAt) + [last];
    forall k | 0 <= k < n
      ensures NewNonce(attempts, k)
    {
      assert forall i {:trigger attempts[i]} :: 0 <= i <= k ==> |attempts[i].pot.nonce| == i;
    }
    assert OwnTolerance(0.0) == 0;
  }

  /** The count in NoReplay cannot be raised: a run, all in one millisecond, in which a PoT with an hour to live is
      accepted again after exactly 10,000 other recordings. */
  lemma ReplayAfterEviction(start: int) returns (attempts: seq<Attempt>, j: nat)
    ensures 0 < j < |attempts| && Monotone(start, attempts) && attempts[j].pot == attempts[0].pot
    ensures |After(start, attempts, j).log| - |After(start, attempts, 1).log| == 10_000
    ensures Accepts(After(start, attempts, 0), attempts[0]) && Accepts(After(start, attempts, j), attempts[j])
  {
    var expiresAt := start + 3_600_000;
    var first := Attempt(Named(0, expiresAt), start, start);
    VolleyIsBurst(start, 10_000 + 1, expiresAt, first);
    j := 10_000 + 1;
    attempts := Volley(start, j, expiresAt) + [first];
    EvictedIsAcceptedAgain(start, attempts);
  }

  /** Nor can its time: with 5,000 other recordings, the same PoT is accepted again once five minutes are over. */
  lemma ReplayAfterExpiry(start: int) returns (attempts: seq<Attempt>, j: nat)
    ensures 0 < j < |attempts| && Monotone(start, attempts) && attempts[j].pot == attempts[0].pot
    ensures |After(start, attempts, j).log| - |After(start, attempts, 1).log| == 5_000
    ensures attempts[j].recordedAt == attempts[0].recordedAt + 300_000 + 1
    ensures Accepts(After(start, attempts, 0), attempts[0]) && Accepts(After(start, attempts, j), attempts[j])
  {
    var expiresAt, later := start + 3_600_000, start + 300_000 + 1;
    var late := Attempt(Named(0, expiresAt), later, later);
    j := 5_000 + 1;
    VolleyIsBurst(start, j, expiresAt, late);
    attempts := Volley(start, j, expiresAt) + [late];
    BurstFills(start, attempts, 1);
    BurstFills(start, attempts, j);
    ExpiredIsAcceptedAgain(start, attempts, j);
  }

  /** Nor can the lag be left out: a PoT that expires with the TTL is accepted again when its expiry is checked in its
      last millisecond and the cache is looked at in the next one. */
  lemma ReplayInTheLag(start: int) returns (attempts: seq<Attempt>, j: nat)
    ensures 0 < j < |attempts| && Monotone(start, attempts) && attempts[j].pot == attempts[0].pot
    ensures |After(start, attempts, j).log| - |After(start, attempts, 1).log| == 5_000
    ensures attempts[j].pot.expiresAt == attempts[0].recordedAt + 300_000
    ensures attempts[j].recordedAt - attempts[j].checkedAt == 1
    ensures Accepts(After(start, attempts, 0), attempts[0]) && Accepts(After(start, attempts, j), attempts[j])
  {
    var expiresAt := start + 300_000;
    var late := Attempt(Named(0, expiresAt), expiresAt, expiresAt + 1);
    j := 5_000 + 1;
    VolleyIsBurst(start, j, expiresAt, late);
    attempts := Volley(start, j, expiresAt) + [late];
    BurstFills(start, attempts, 1);
    BurstFills(start, attempts, j);
    ExpiredIsAcceptedAgain(start, attempts, j);
  }
}
