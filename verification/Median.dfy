/** Sorting by key, and what the middle of a sorted sequence tells when some of its elements are faulty. */
module Median {

  /** The elements whose key lies in [lo, hi]. */
  function CountIn<T>(key: T -> int, s: seq<T>, lo: int, hi: int): (n: nat)
    ensures n <= |s|
  {
    if s == [] then 0
    else CountIn(key, s[..|s| - 1], lo, hi) + (if lo <= key(s[|s| - 1]) <= hi then 1 else 0)
  }

  predicate Sorted<T>(key: T -> int, s: seq<T>) {
    forall i, j :: 0 <= i < j < |s| ==> key(s[i]) <= key(s[j])
  }

  /** Insertion behind equal keys, so the sort is stable. */
  function Insert<T>(key: T -> int, x: T, s: seq<T>): (r: seq<T>)
    ensures |r| == |s| + 1
  {
    if s == [] then [x]
    else if key(x) < key(s[|s| - 1]) then Insert(key, x, s[..|s| - 1]) + [s[|s| - 1]]
    else s + [x]
  }

  /** The stable sort; on sorted integers any sort gives the same result. */
  function Sort<T>(key: T -> int, s: seq<T>): (r: seq<T>)
    ensures |r| == |s|
  {
    if s == [] then [] else Insert(key, s[|s| - 1], Sort(key, s[..|s| - 1]))
  }

  lemma {:induction false} InsertPermutes<T>(key: T -> int, x: T, s: seq<T>)
    ensures multiset(Insert(key, x, s)) == multiset(s) + multiset{x}
  {
    if s != [] && key(x) < key(s[|s| - 1]) {
      InsertPermutes(key, x, s[..|s| - 1]);
      assert s == s[..|s| - 1] + [s[|s| - 1]];
    }
  }

  lemma {:induction false} InsertSorted<T>(key: T -> int, x: T, s: seq<T>)
    requires Sorted(key, s)
    ensures Sorted(key, Insert(key, x, s))
  {
    if s != [] && key(x) < key(s[|s| - 1]) {
      var m := |s| - 1;
      InsertSorted(key, x, s[..m]);
      InsertBounded(key, x, s[..m], key(s[m]));
    }
  }

  lemma {:induction false} InsertBounded<T>(key: T -> int, x: T, s: seq<T>, bound: int)
    requires key(x) <= bound && forall i :: 0 <= i < |s| ==> key(s[i]) <= bound
    ensures forall i :: 0 <= i < |s| + 1 ==> key(Insert(key, x, s)[i]) <= bound
  {
    if s != [] && key(x) < key(s[|s| - 1]) {
      InsertBounded(key, x, s[..|s| - 1], bound);
    }
  }

  lemma {:induction false} SortIsSorted<T>(key: T -> int, s: seq<T>)
    ensures Sorted(key, Sort(key, s))
  {
    if s != [] {
      var m := |s| - 1;
      SortIsSorted(key, s[..m]);
      InsertSorted(key, s[m], Sort(key, s[..m]));
    }
  }

  lemma LastSplits<T>(s: seq<T>)
    requires s != []
    ensures multiset(s) == multiset(s[..|s| - 1]) + multiset{s[|s| - 1]}
  {
    assert s == s[..|s| - 1] + [s[|s| - 1]];
  }

  lemma {:induction false} SortPermutes<T>(key: T -> int, s: seq<T>)
    ensures multiset(Sort(key, s)) == multiset(s)
  {
    if s != [] {
      var m := |s| - 1;
      SortPermutes(key, s[..m]);
      InsertPermutes(key, s[m], Sort(key, s[..m]));
      LastSplits(s);
    }
  }

  lemma SortSorts<T>(key: T -> int, s: seq<T>)
    ensures Sorted(key, Sort(key, s)) && multiset(Sort(key, s)) == multiset(s)
  {
    SortIsSorted(key, s);
    SortPermutes(key, s);
  }

  lemma {:induction false} CountConcat<T>(key: T -> int, a: seq<T>, b: seq<T>, lo: int, hi: int)
    ensures CountIn(key, a + b, lo, hi) == CountIn(key, a, lo, hi) + CountIn(key, b, lo, hi)
  {
    if b == [] {
      assert a + b == a;
    } else {
      CountConcat(key, a, b[..|b| - 1], lo, hi);
      assert (a + b)[..|a + b| - 1] == a + b[..|b| - 1];
    }
  }

  lemma CountLast<T>(key: T -> int, s: seq<T>, x: T, lo: int, hi: int)
    ensures CountIn(key, s + [x], lo, hi) == CountIn(key, s, lo, hi) + (if lo <= key(x) <= hi then 1 else 0)
  {
    assert (s + [x])[..|s|] == s;
  }

  lemma {:induction false} InsertCounts<T>(key: T -> int, x: T, s: seq<T>, lo: int, hi: int)
    ensures CountIn(key, Insert(key, x, s), lo, hi) == CountIn(key, s, lo, hi) + (if lo <= key(x) <= hi then 1 else 0)
  {
    if s != [] && key(x) < key(s[|s| - 1]) {
      InsertCounts(key, x, s[..|s| - 1], lo, hi);
      CountLast(key, Insert(key, x, s[..|s| - 1]), s[|s| - 1], lo, hi);
    } else {
      CountLast(key, s, x, lo, hi);
      assert s == [] ==> s + [x] == [x];
    }
  }

  lemma {:induction false} SortCounts<T>(key: T -> int, s: seq<T>, lo: int, hi: int)
    ensures CountIn(key, Sort(key, s), lo, hi) == CountIn(key, s, lo, hi)
  {
    if s != [] {
      SortCounts(key, s[..|s| - 1], lo, hi);
      InsertCounts(key, s[|s| - 1], Sort(key, s[..|s| - 1]), lo, hi);
    }
  }

  lemma {:induction false} CountNone<T>(key: T -> int, s: seq<T>, lo: int, hi: int)
    requires forall i :: 0 <= i < |s| ==> !(lo <= key(s[i]) <= hi)
    ensures CountIn(key, s, lo, hi) == 0
  {
    if s != [] {
      CountNone(key, s[..|s| - 1], lo, hi);
    }
  }

  lemma CountSplit<T>(key: T -> int, s: seq<T>, k: nat, lo: int, hi: int)
    requires k <= |s|
    ensures CountIn(key, s, lo, hi) == CountIn(key, s[..k], lo, hi) + CountIn(key, s[k..], lo, hi)
  {
    CountConcat(key, s[..k], s[k..], lo, hi);
    assert s == s[..k] + s[k..];
  }

  lemma BelowExcluded<T>(key: T -> int, s: seq<T>, k: nat, lo: int, hi: int)
    requires Sorted(key, s) && k < |s| && key(s[k]) < lo
    ensures CountIn(key, s, lo, hi) <= |s| - (k + 1)
  {
    CountNone(key, s[..k + 1], lo, hi);
    CountSplit(key, s, k + 1, lo, hi);
  }

  lemma AboveExcluded<T>(key: T -> int, s: seq<T>, k: nat, lo: int, hi: int)
    requires Sorted(key, s) && k < |s| && hi < key(s[k])
    ensures CountIn(key, s, lo, hi) <= k
  {
    CountNone(key, s[k..], lo, hi);
    CountSplit(key, s, k, lo, hi);
  }

  /** In a sorted sequence of which more than half lies in [lo, hi], every index that leaves at least half on each side
      lies in [lo, hi]. */
  lemma MiddleInRange<T>(key: T -> int, s: seq<T>, k: nat, lo: int, hi: int)
    requires Sorted(key, s) && 2 * CountIn(key, s, lo, hi) > |s|
    requires |s| <= 2 * (k + 1) && 2 * k <= |s| && k < |s|
    ensures lo <= key(s[k]) <= hi
  {
    if key(s[k]) < lo {
      BelowExcluded(key, s, k, lo, hi);
    } else if key(s[k]) > hi {
      AboveExcluded(key, s, k, lo, hi);
    }
  }

  /** The members of a set of positions all count towards any range that contains their keys. */
  lemma {:induction false} CountHonest<T>(key: T -> int, s: seq<T>, honest: set<nat>, lo: int, hi: int)
    requires forall i :: i in honest ==> i < |s| && lo <= key(s[i]) <= hi
    ensures |honest| <= CountIn(key, s, lo, hi)
    decreases |s|
  {
    if s == [] {
      if i :| i in honest {
        assert false;
      }
    } else {
      var m := |s| - 1;
      var rest := honest - {m};
      CountHonest(key, s[..m], rest, lo, hi);
      if m in honest {
        assert |rest| == |honest| - 1;
      } else {
        assert rest == honest;
      }
    }
  }

  /** The least and greatest keys over a non-empty set of positions. */
  lemma {:induction false} Extremes<T>(key: T -> int, s: seq<T>, honest: set<nat>) returns (least: nat, greatest: nat)
    requires honest != {} && forall i :: i in honest ==> i < |s|
    ensures least in honest && greatest in honest
    ensures forall i :: i in honest ==> key(s[least]) <= key(s[i]) <= key(s[greatest])
    decreases |honest|
  {
    var i :| i in honest;
    var rest := honest - {i};
    if rest == {} {
      least, greatest := i, i;
      assert forall j :: j in honest ==> j == i || j in rest;
    } else {
      least, greatest := Extremes(key, s, rest);
      if key(s[i]) < key(s[least]) {
        least := i;
      }
      if key(s[greatest]) < key(s[i]) {
        greatest := i;
      }
      assert forall j :: j in honest ==> j == i || j in rest;
    }
  }

  // ---- Where the sort puts an element ----

  lemma {:induction false} CountAll<T>(key: T -> int, s: seq<T>, lo: int, hi: int)
    requires forall i :: 0 <= i < |s| ==> lo <= key(s[i]) <= hi
    ensures CountIn(key, s, lo, hi) == |s|
  {
    if s != [] {
      CountAll(key, s[..|s| - 1], lo, hi);
    }
  }

  /** The positions whose key lies in [lo, hi]. */
  function InRange<T>(key: T -> int, s: seq<T>, lo: int, hi: int): set<nat> {
    set j: nat | j < |s| && lo <= key(s[j]) <= hi
  }

  lemma {:induction false} CountIsSize<T>(key: T -> int, s: seq<T>, lo: int, hi: int)
    ensures |InRange(key, s, lo, hi)| == CountIn(key, s, lo, hi)
  {
    if s == [] {
      assert InRange(key, s, lo, hi) == {};
    } else {
      var m := |s| - 1;
      CountIsSize(key, s[..m], lo, hi);
      var before := InRange(key, s[..m], lo, hi);
      assert m !in before;
      assert InRange(key, s, lo, hi) == before + (if lo <= key(s[m]) <= hi then {m} else {});
    }
  }

  /** The positions that come before position i: those with a smaller key, and among equal keys the earlier ones. */
  function Before<T>(key: T -> int, s: seq<T>, i: nat): set<nat>
    requires i < |s|
  {
    set j: nat | j < |s| && (key(s[j]) < key(s[i]) || (key(s[j]) == key(s[i]) && j < i))
  }

  lemma SplitGrows<T>(s: seq<T>, m: nat, p: nat, x: T)
    requires |s| == m + 1 && p <= m
    ensures s[..m][..p] + [x] + s[..m][p..] + [s[m]] == s[..p] + [x] + s[p..]
  {
    assert s[..m][..p] == s[..p] && s[..m][p..] + [s[m]] == s[p..];
  }

  lemma {:induction false} InsertSplits<T>(key: T -> int, x: T, s: seq<T>) returns (p: nat)
    requires Sorted(key, s)
    ensures p <= |s| && Insert(key, x, s) == s[..p] + [x] + s[p..]
    ensures forall k :: 0 <= k < p ==> key(s[k]) <= key(x)
    ensures forall k :: p <= k < |s| ==> key(x) < key(s[k])
  {
    if s != [] && key(x) < key(s[|s| - 1]) {
      p := InsertSplits(key, x, s[..|s| - 1]);
      SplitGrows(s, |s| - 1, p, x);
    } else {
      p := |s|;
      assert s[..p] == s && s[p..] == [];
    }
  }

  lemma {:induction false} LeastKey<T>(key: T -> int, s: seq<T>) returns (least: int)
    ensures forall i :: 0 <= i < |s| ==> least <= key(s[i])
  {
    least := 0;
    if s != [] {
      var m := |s| - 1;
      least := LeastKey(key, s[..m]);
      if key(s[m]) < least {
        least := key(s[m]);
      }
    }
  }

  lemma SplitCounts<T>(key: T -> int, s: seq<T>, p: nat, lo: int, hi: int)
    requires p <= |s| && (forall k :: 0 <= k < p ==> lo <= key(s[k]) <= hi)
    requires forall k :: p <= k < |s| ==> hi < key(s[k])
    ensures CountIn(key, s, lo, hi) == p
  {
    CountSplit(key, s, p, lo, hi);
    CountAll(key, s[..p], lo, hi);
    CountNone(key, s[p..], lo, hi);
  }

  /** The place of a new last element: as many come before it as have a key no greater. */
  lemma LastPlace<T>(key: T -> int, s: seq<T>, m: nat, p: nat)
    requires |s| == m + 1 && p <= m
    requires forall k :: 0 <= k < p ==> key(Sort(key, s[..m])[k]) <= key(s[m])
    requires forall k :: p <= k < m ==> key(s[m]) < key(Sort(key, s[..m])[k])
    ensures |Before(key, s, m)| == p
  {
    var sorted, hi := Sort(key, s[..m]), key(s[m]);
    var a := LeastKey(key, s[..m]);
    var b := LeastKey(key, sorted);
    var lo := if a < b then a else b;
    SplitCounts(key, sorted, p, lo, hi);
    SortCounts(key, s[..m], lo, hi);
    CountIsSize(key, s[..m], lo, hi);
    assert Before(key, s, m) == InRange(key, s[..m], lo, hi);
  }

  /** A new last element comes before position i exactly when its key is smaller. */
  lemma BeforeGrows<T>(key: T -> int, s: seq<T>, i: nat, m: nat)
    requires |s| == m + 1 && i < m
    ensures |Before(key, s, i)| == |Before(key, s[..m], i)| + (if key(s[m]) < key(s[i]) then 1 else 0)
  {
    var before := Before(key, s[..m], i);
    assert m !in before;
    assert Before(key, s, i) == before + (if key(s[m]) < key(s[i]) then {m} else {});
  }

  lemma SortGrows<T>(key: T -> int, s: seq<T>, m: nat) returns (shorter: seq<T>, p: nat)
    requires |s| == m + 1
    ensures shorter == Sort(key, s[..m]) && p <= m == |shorter|
    ensures Sort(key, s) == shorter[..p] + [s[m]] + shorter[p..]
    ensures forall k :: 0 <= k < p ==> key(shorter[k]) <= key(s[m])
    ensures forall k :: p <= k < m ==> key(s[m]) < key(shorter[k])
  {
    shorter := Sort(key, s[..m]);
    SortIsSorted(key, s[..m]);
    p := InsertSplits(key, s[m], shorter);
  }

  lemma AfterInsert<T>(key: T -> int, s: seq<T>, x: T, p: nat, r: nat, y: T)
    requires p <= |s| && r < |s| && s[r] == y
    requires forall k :: 0 <= k < p ==> key(s[k]) <= key(x)
    requires forall k :: p <= k < |s| ==> key(x) < key(s[k])
    ensures (s[..p] + [x] + s[p..])[r + (if key(x) < key(y) then 1 else 0)] == y
  {
  }

  /** Every element goes to the place that the number of elements before it gives. */
  lemma {:induction false} SortPlaces<T>(key: T -> int, s: seq<T>, i: nat)
    requires i < |s|
    ensures |Before(key, s, i)| < |s| && Sort(key, s)[|Before(key, s, i)|] == s[i]
    decreases |s|
  {
    var shorter, p := SortGrows(key, s, |s| - 1);
    if i < |s| - 1 {
      SortPlaces(key, s[..|s| - 1], i);
      BeforeGrows(key, s, i, |s| - 1);
      AfterInsert(key, shorter, s[|s| - 1], p, |Before(key, s[..|s| - 1], i)|, s[i]);
    } else {
      LastPlace(key, s, i, p);
    }
  }

  lemma PlacedBelow<T>(key: T -> int, s: seq<T>, i: nat, r: nat)
    requires i < |s| && |Before(key, s, i)| == r < |s|
    ensures Sort(key, s)[r] == s[i]
  {
    SortPlaces(key, s, i);
  }

  /** The place of an element moves up by one when the new last element goes before it. */
  lemma PlaceMoves<T>(key: T -> int, s: seq<T>, m: nat, p: nat, i: nat, r: nat)
    requires |s| == m + 1 && i < m && p <= m && r <= m && r != p
    requires |Before(key, s[..m], i)| == if r < p then r else r - 1
    requires forall k :: 0 <= k < p ==> key(Sort(key, s[..m])[k]) <= key(s[m])
    requires forall k :: p <= k < m ==> key(s[m]) < key(Sort(key, s[..m])[k])
    ensures |Before(key, s, i)| == r
  {
    PlacedBelow(key, s[..m], i, if r < p then r else r - 1);
    BeforeGrows(key, s, i, m);
  }

  /** The element that sorting puts at a place. */
  lemma {:induction false} PlaceTaken<T>(key: T -> int, s: seq<T>, r: nat) returns (i: nat)
    requires r < |s|
    ensures i < |s| && |Before(key, s, i)| == r
    decreases |s|
  {
    var shorter, p := SortGrows(key, s, |s| - 1);
    if r == p {
      i := |s| - 1;
      LastPlace(key, s, i, p);
    } else {
      i := PlaceTaken(key, s[..|s| - 1], if r < p then r else r - 1);
      PlaceMoves(key, s, |s| - 1, p, i, r);
    }
  }
}
