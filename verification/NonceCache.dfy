/** The bounded nonce cache of src/time_synthesis.ts: a Map in insertion order from nonce to the time of recording. */
module NonceCache {

  const MAX_NONCE_CACHE := 10000
  const NONCE_TTL_MS := 300000

  datatype Entry = Entry(nonce: string, at: int)

  predicate Fresh(e: Entry, now: int) {
    now - e.at <= NONCE_TTL_MS
  }

  /** The cache without its expired entries. */
  function Unexpired(cache: seq<Entry>, now: int): seq<Entry> {
    if cache == [] then []
    else if Fresh(cache[0], now) then [cache[0]] + Unexpired(cache[1..], now)
    else Unexpired(cache[1..], now)
  }

  /** The cleanup pass runs only on a cache more than half full. */
  function Cleaned(cache: seq<Entry>, now: int): seq<Entry> {
    if |cache| > MAX_NONCE_CACHE / 2 then Unexpired(cache, now) else cache
  }

  predicate Has(cache: seq<Entry>, nonce: string) {
    exists i :: 0 <= i < |cache| && cache[i].nonce == nonce
  }

  /** Make room by dropping the oldest entry, then append. */
  function Added(cache: seq<Entry>, nonce: string, now: int): seq<Entry> {
    (if |cache| >= MAX_NONCE_CACHE then cache[1..] else cache) + [Entry(nonce, now)]
  }

  /** An entry with this nonce is there, and no cleanup before the look-up removes it: it is at most 300 s old, or the
      cache has no more than 5,000 entries. */
  predicate Known(cache: seq<Entry>, nonce: string, now: int) {
    exists e :: e in cache && e.nonce == nonce && (now - e.at <= 300_000 || |cache| <= 5_000)
  }

  lemma {:induction false} UnexpiredKeeps(cache: seq<Entry>, now: int, e: Entry)
    ensures e in Unexpired(cache, now) <==> e in cache && now - e.at <= 300_000
  {
    if cache != [] {
      UnexpiredKeeps(cache[1..], now, e);
    }
  }

  lemma HasIsIn(cache: seq<Entry>, nonce: string)
    ensures Has(cache, nonce) <==> exists e :: e in cache && e.nonce == nonce
  {
    if Has(cache, nonce) {
      var i :| 0 <= i < |cache| && cache[i].nonce == nonce;
      assert cache[i] in cache;
    }
  }

  /** What the look-up after the cleanup finds. */
  lemma FoundIfKnown(cache: seq<Entry>, nonce: string, now: int)
    ensures Has(Cleaned(cache, now), nonce) <==> Known(cache, nonce, now)
  {
    HasIsIn(Cleaned(cache, now), nonce);
    forall e
      ensures e in Unexpired(cache, now) <==> e in cache && now - e.at <= 300_000
    {
      UnexpiredKeeps(cache, now, e);
    }
  }

  // ---- The cache beside the history of everything ever recorded ----

  /** The cache, every entry recorded so far, and the last time the cache was used. */
  datatype Ledger = Ledger(cache: seq<Entry>, log: seq<Entry>, clock: int)

  predicate Ordered(log: seq<Entry>, clock: int) {
    (forall i, j :: 0 <= i < j < |log| ==> log[i].at <= log[j].at) && forall i :: 0 <= i < |log| ==> log[i].at <= clock
  }

  /** An entry may be missing from the cache only when it has outlived the TTL or 10,000 more were recorded. */
  predicate Forgettable(l: Ledger, i: nat)
    requires i < |l.log|
  {
    l.clock - l.log[i].at > 300_000 || |l.log| - 1 - i >= 10_000
  }

  /** The cache is the end of the history, at most 10,000 long, and what it lacks is forgettable. */
  ghost predicate Sound(l: Ledger) {
    && Ordered(l.log, l.clock)
    && |l.cache| <= 10_000 && |l.cache| <= |l.log|
    && l.cache == l.log[|l.log| - |l.cache|..]
    && forall i :: 0 <= i < |l.log| - |l.cache| ==> Forgettable(l, i)
  }

  /** Checking a nonce at a time: clean, look up, and record it if it is new. */
  function Check(l: Ledger, nonce: string, now: int): Ledger {
    var cleaned := Cleaned(l.cache, now);
    if Has(cleaned, nonce) then Ledger(cleaned, l.log, now)
    else Ledger(Added(cleaned, nonce, now), l.log + [Entry(nonce, now)], now)
  }

  lemma {:induction false} AllUnexpired(cache: seq<Entry>, now: int)
    requires forall i :: 0 <= i < |cache| ==> Fresh(cache[i], now)
    ensures Unexpired(cache, now) == cache
  {
    if cache != [] {
      AllUnexpired(cache[1..], now);
    }
  }

  lemma {:induction false} NoneUnexpired(cache: seq<Entry>, now: int)
    requires forall i :: 0 <= i < |cache| ==> !Fresh(cache[i], now)
    ensures Unexpired(cache, now) == []
  {
    if cache != [] {
      NoneUnexpired(cache[1..], now);
    }
  }

  lemma {:induction false} UnexpiredIsSuffix(cache: seq<Entry>, now: int) returns (k: nat)
    requires Ordered(cache, now)
    ensures k <= |cache| && Unexpired(cache, now) == cache[k..]
    ensures forall i :: 0 <= i < k ==> !Fresh(cache[i], now)
  {
    k := 0;
    if cache != [] {
      if Fresh(cache[0], now) {
        AllUnexpired(cache, now);
      } else {
        var tail := cache[1..];
        var rest := UnexpiredIsSuffix(tail, now);
        k := rest + 1;
        assert cache[k..] == tail[rest..];
        assert forall i {:trigger cache[i]} :: 1 <= i < k ==> cache[i] == tail[i - 1];
      }
    }
  }

  /** Dropping k expired entries from the front keeps the cache sound at the later time. */
  lemma DroppingIsSound(l: Ledger, now: int, k: nat)
    requires Sound(l) && l.clock <= now && k <= |l.cache|
    requires forall i :: 0 <= i < k ==> !Fresh(l.cache[i], now)
    ensures Sound(Ledger(l.cache[k..], l.log, now))
  {
    var l', dropped := Ledger(l.cache[k..], l.log, now), |l.log| - |l.cache|;
    assert l'.cache == l.log[dropped + k..];
    forall i | 0 <= i < dropped + k
      ensures Forgettable(l', i)
    {
      if i < dropped {
        assert Forgettable(l, i);
      } else {
        assert l.log[i] == l.cache[i - dropped];
      }
    }
  }

  lemma CleanedIsSound(l: Ledger, now: int)
    requires Sound(l) && l.clock <= now
    ensures Sound(Ledger(Cleaned(l.cache, now), l.log, now))
  {
    if |l.cache| > MAX_NONCE_CACHE / 2 {
      var k := UnexpiredIsSuffix(l.cache, now);
      DroppingIsSound(l, now, k);
    } else {
      DroppingIsSound(l, now, 0);
      assert l.cache[0..] == l.cache;
    }
  }

  /** Every check keeps the cache sound, under a clock that does not go back. */
  lemma CheckKeepsSound(l: Ledger, nonce: string, now: int)
    requires Sound(l) && l.clock <= now
    ensures Sound(Check(l, nonce, now))
  {
    CleanedIsSound(l, now);
    var c := Ledger(Cleaned(l.cache, now), l.log, now);
    if !Has(c.cache, nonce) {
      AddedIsSound(c, nonce);
    }
  }

  lemma AddedIsSound(c: Ledger, nonce: string)
    requires Sound(c)
    ensures Sound(Ledger(Added(c.cache, nonce, c.clock), c.log + [Entry(nonce, c.clock)], c.clock))
  {
    var l := Ledger(Added(c.cache, nonce, c.clock), c.log + [Entry(nonce, c.clock)], c.clock);
    forall i | 0 <= i < |l.log| - |l.cache|
      ensures Forgettable(l, i)
    {
      assert l.log[i] == c.log[i];
      if i < |c.log| - |c.cache| {
        assert Forgettable(c, i);
      }
    }
  }

  /** A nonce is found again as long as its entry is neither older than the TTL nor 10,000 recordings back. */
  lemma RecordedIsFound(l: Ledger, p: nat, now: int)
    requires Sound(l) && l.clock <= now && p < |l.log|
    requires now - l.log[p].at <= 300_000 && |l.log| - 1 - p < 10_000
    ensures Has(Cleaned(l.cache, now), l.log[p].nonce)
    ensures Check(l, l.log[p].nonce, now).log == l.log
  {
    CleanedIsSound(l, now);
    var c := Ledger(Cleaned(l.cache, now), l.log, now);
    var dropped := |c.log| - |c.cache|;
    assert p < dropped ==> Forgettable(c, p);
    assert c.cache[p - dropped] == l.log[p];
  }
}
