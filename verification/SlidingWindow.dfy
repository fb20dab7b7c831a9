/** The 20-block window both adaptive switches judge by. */
module SlidingWindow {

  /** TURBO is the fast verification mode, FULL the careful one. */
  datatype Mode = Turbo | Full

  const WINDOW := 20

  /** The thresholds 0.95 and 0.85 in twentieths. */
  const ENTRY := 19
  const MAINTAIN := 17

  function Threshold(mode: Mode): nat {
    if mode.Turbo? then MAINTAIN else ENTRY
  }

  /** The matches among the results from lo up to hi. */
  function MatchesIn(results: seq<bool>, lo: nat, hi: nat): (n: nat)
    requires lo <= hi <= |results|
    ensures n <= hi - lo
    decreases hi - lo
  {
    if lo == hi then 0 else MatchesIn(results, lo, hi - 1) + (if results[hi - 1] then 1 else 0)
  }

  /** count / size >= the mode's threshold. Doubles decide it as exact fractions do: on a full window the quotient k /
      20 rounds to the same double as the threshold, and on a shorter one it differs from it by more than any rounding
      error. */
  predicate RateOk(count: nat, size: nat, mode: Mode) {
    20 * count >= if mode.Turbo? then MAINTAIN * size else ENTRY * size
  }

  /** The match rate of a history is at least the mode's threshold. */
  predicate RateAtLeast(history: seq<bool>, mode: Mode) {
    RateOk(MatchesIn(history, 0, |history|), |history|, mode)
  }

  /** Push, then drop the oldest once the window is exceeded. */
  function Slide(history: seq<bool>, ok: bool): (h: seq<bool>) {
    if |history| + 1 > WINDOW then (history + [ok])[1..] else history + [ok]
  }

  // ---- The window over all results so far ----

  /** Where the window after n results begins. */
  function Oldest(n: nat): (m: nat)
    ensures m <= n
  {
    if n <= WINDOW then 0 else n - WINDOW
  }

  /** The window after the first n results: the last 20 of them. */
  function Recent(results: seq<bool>, n: nat): seq<bool>
    requires n <= |results|
  {
    results[Oldest(n)..n]
  }

  /** Matches in the window that ends after n results. */
  function InWindow(results: seq<bool>, n: nat): nat
    requires n <= |results|
  {
    MatchesIn(results, Oldest(n), n)
  }

  /** The window after n results meets the mode's threshold. */
  predicate WindowOk(results: seq<bool>, n: nat, mode: Mode)
    requires n <= |results|
  {
    RateOk(InWindow(results, n), n - Oldest(n), mode)
  }

  /** The positions of the matches among the 20 results before position n. */
  function Matching(results: seq<bool>, n: nat): set<nat>
    requires n <= |results|
  {
    set p: nat | n - 20 <= p < n && results[p]
  }

  function MatchesFrom(results: seq<bool>, lo: nat, hi: nat): set<nat>
    requires hi <= |results|
  {
    set p: nat | lo <= p < hi && results[p]
  }

  lemma {:induction false} MatchesAreCounted(results: seq<bool>, lo: nat, hi: nat)
    requires lo <= hi <= |results|
    ensures |MatchesFrom(results, lo, hi)| == MatchesIn(results, lo, hi)
    decreases hi - lo
  {
    if lo == hi {
      assert MatchesFrom(results, lo, hi) == {};
    } else {
      MatchesAreCounted(results, lo, hi - 1);
      var before := MatchesFrom(results, lo, hi - 1);
      assert hi - 1 !in before;
      assert MatchesFrom(results, lo, hi) == before + (if results[hi - 1] then {hi - 1} else {});
    }
  }

  /** What the code counts in its window is the number of matches among the last 20 results. */
  lemma WindowIsCounted(results: seq<bool>, n: nat)
    requires 20 <= n <= |results|
    ensures InWindow(results, n) == |Matching(results, n)|
  {
    MatchesAreCounted(results, n - 20, n);
    assert Matching(results, n) == MatchesFrom(results, n - 20, n);
  }

  lemma SlideIsRecent(results: seq<bool>, n: nat)
    requires n < |results|
    ensures Slide(Recent(results, n), results[n]) == Recent(results, n + 1)
  {
    var lo := Oldest(n);
    assert results[lo..n] + [results[n]] == results[lo..n + 1];
    if n >= WINDOW {
      assert results[lo..n + 1][1..] == results[lo + 1..n + 1];
    }
  }

  lemma {:induction false} MatchesOfSlice(results: seq<bool>, lo: nat, hi: nat, k: nat)
    requires lo <= hi <= |results| && k <= hi - lo
    ensures MatchesIn(results[lo..hi], 0, k) == MatchesIn(results, lo, lo + k)
  {
    if k > 0 {
      MatchesOfSlice(results, lo, hi, k - 1);
    }
  }

  /** The rate of the window as a sequence is the rate of the results it spans. */
  lemma RecentRate(results: seq<bool>, n: nat, mode: Mode)
    requires n <= |results|
    ensures RateAtLeast(Recent(results, n), mode) <==> WindowOk(results, n, mode)
  {
    RecentMatches(results, n);
  }

  lemma RecentMatches(results: seq<bool>, n: nat)
    requires n <= |results|
    ensures |Recent(results, n)| == n - Oldest(n)
    ensures MatchesIn(Recent(results, n), 0, |Recent(results, n)|) == InWindow(results, n)
  {
    MatchesOfSlice(results, Oldest(n), n, n - Oldest(n));
  }

  lemma {:induction false} MatchesPrefix(results: seq<bool>, more: seq<bool>, lo: nat, hi: nat)
    requires lo <= hi <= |results|
    ensures MatchesIn(results + more, lo, hi) == MatchesIn(results, lo, hi)
    decreases hi - lo
  {
    if lo < hi {
      MatchesPrefix(results, more, lo, hi - 1);
    }
  }

  lemma {:induction false} MatchesDropFirst(results: seq<bool>, lo: nat, hi: nat)
    requires lo < hi <= |results|
    ensures MatchesIn(results, lo, hi) == MatchesIn(results, lo + 1, hi) + (if results[lo] then 1 else 0)
    decreases hi - lo
  {
    if lo + 1 < hi {
      MatchesDropFirst(results, lo, hi - 1);
    }
  }

  /** One more block moves the count by at most one. */
  lemma WindowMovesSlowly(results: seq<bool>, n: nat)
    requires WINDOW <= n < |results|
    ensures -1 <= InWindow(results, n + 1) - InWindow(results, n) <= 1
  {
    MatchesDropFirst(results, n - WINDOW, n);
  }

  lemma {:induction false} AllMatch(results: seq<bool>, lo: nat, hi: nat)
    requires lo <= hi <= |results| && forall i :: lo <= i < hi ==> results[i]
    ensures MatchesIn(results, lo, hi) == hi - lo
    decreases hi - lo
  {
    if lo < hi {
      AllMatch(results, lo, hi - 1);
    }
  }

  lemma {:induction false} NoneMatch(results: seq<bool>, lo: nat, hi: nat)
    requires lo <= hi <= |results| && forall i :: lo <= i < hi ==> !results[i]
    ensures MatchesIn(results, lo, hi) == 0
    decreases hi - lo
  {
    if lo < hi {
      NoneMatch(results, lo, hi - 1);
    }
  }
}
