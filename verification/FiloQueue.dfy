/** The newest-first queue of src/roughtime/filo_queue.rs over a max-priority heap. */
module FiloQueue {
  import opened Wrappers
  import opened ByteOrder

  datatype Entry = Entry(timestampNs: u64, ctxId: string, potBytes: Bytes, commitment: Digest, mode: byte,
      submittedNs: u64)

  predicate Newest(e: Entry, heap: multiset<Entry>) {
    e in heap && forall x :: x in heap ==> x.timestampNs <= e.timestampNs
  }

  /** The least timestamp in the heap; 0 for an empty one. */
  predicate IsOldestTime(t: u64, heap: multiset<Entry>) {
    if heap == multiset{} then t == 0
    else (exists x :: x in heap && x.timestampNs == t) && forall x :: x in heap ==> t <= x.timestampNs
  }

  /** A queue at capacity refuses an entry no newer than the least timestamp; it evicts nothing. */
  predicate Refuses(capacity: nat, heap: multiset<Entry>, e: Entry) {
    && |heap| >= capacity
    && if heap == multiset{} then e.timestampNs == 0 else forall x :: x in heap ==> e.timestampNs <= x.timestampNs
  }

  /** Newest first, equal timestamps in any order. */
  predicate NewestFirst(s: seq<Entry>) {
    forall i, j :: 0 <= i < j < |s| ==> s[i].timestampNs >= s[j].timestampNs
  }

  // ---- Operations and runs ----

  datatype Op =
    | Push(entry: Entry, accepted: bool)
    | Pop(popped: Option<Entry>)
    | Drain(cutoffNs: u64, drained: seq<Entry>)

  /** What one operation may answer and leave behind; the heap chooses among equal timestamps. */
  ghost predicate Step(capacity: nat, heap: multiset<Entry>, op: Op, heap': multiset<Entry>) {
    match op
    case Push(e, accepted) => accepted == !Refuses(capacity, heap, e)
        && heap' == if accepted then heap + multiset{e} else heap
    case Pop(None) => heap == multiset{} == heap'
    case Pop(Some(e)) => Newest(e, heap) && heap' == heap - multiset{e}
    case Drain(cutoff, out) =>
      NewestFirst(out) && (forall e {:trigger multiset(out)[e]} {:trigger heap'[e]} ::
        multiset(out)[e] == (if e.timestampNs >= cutoff then heap[e] else 0)
            && heap'[e] == (if e.timestampNs >= cutoff then 0 else heap[e]))
  }

  /** The heaps of a run from the empty queue, one before each operation and one at the end. */
  ghost predicate Run(capacity: nat, ops: seq<Op>, heaps: seq<multiset<Entry>>) {
    && |heaps| == |ops| + 1 && heaps[0] == multiset{}
    && forall i {:trigger ops[i]} :: 0 <= i < |ops| ==> Step(capacity, heaps[i], ops[i], heaps[i + 1])
  }

  function Sum<T>(parts: seq<multiset<T>>, n: nat): multiset<T>
    requires n <= |parts|
  {
    if n == 0 then multiset{} else Sum(parts, n - 1) + parts[n - 1]
  }

  /** What each operation takes in and hands out. */
  function TakenBy(ops: seq<Op>): (parts: seq<multiset<Entry>>)
    ensures |parts| == |ops|
  {
    seq(|ops|, i requires 0 <= i < |ops| => Taken(ops[i]))
  }

  function GivenBy(ops: seq<Op>): (parts: seq<multiset<Entry>>)
    ensures |parts| == |ops|
  {
    seq(|ops|, i requires 0 <= i < |ops| => Given(ops[i]))
  }

  function Taken(op: Op): multiset<Entry> {
    if op.Push? && op.accepted then multiset{op.entry} else multiset{}
  }

  /** The entries an operation hands out. */
  function Given(op: Op): multiset<Entry> {
    match op
    case Push(_, _) => multiset{}
    case Pop(r) => if r.Some? then multiset{r.value} else multiset{}
    case Drain(_, out) => multiset(out)
  }

  lemma StepConserves(capacity: nat, heap: multiset<Entry>, op: Op, heap': multiset<Entry>)
    requires Step(capacity, heap, op, heap')
    ensures heap + Taken(op) == heap' + Given(op)
  {
    match op
    case Push(_, _) =>
    case Pop(_) =>
    case Drain(cutoff, out) =>
      forall e
        ensures heap[e] == heap'[e] + multiset(out)[e]
      {
      }
  }

  lemma Balance<T>(left: multiset<T>, heap: multiset<T>, taken: multiset<T>, given: multiset<T>, heap': multiset<T>)
    requires heap + taken == heap' + given
    ensures left + heap + taken == left + given + heap'
  {
    assert left + heap + taken == left + (heap + taken);
  }

  lemma {:induction false} Telescopes<T>(taken: seq<multiset<T>>, given: seq<multiset<T>>, held: seq<multiset<T>>,
      n: nat)
    requires n <= |taken| == |given| && |held| == |taken| + 1 && held[0] == multiset{}
    requires forall i {:trigger taken[i]} :: 0 <= i < |taken| ==> held[i] + taken[i] == held[i + 1] + given[i]
    ensures Sum(taken, n) == Sum(given, n) + held[n]
  {
    if n > 0 {
      Telescopes(taken, given, held, n - 1);
      Balance(Sum(given, n - 1), held[n - 1], taken[n - 1], given[n - 1], held[n]);
    }
  }

  /** Conservation: at every point of a run, what was accepted is what was handed out and what is still queued, entry
      for entry. */
  lemma NothingLost(capacity: nat, ops: seq<Op>, heaps: seq<multiset<Entry>>, n: nat)
    requires Run(capacity, ops, heaps) && n <= |ops|
    ensures Sum(TakenBy(ops), n) == Sum(GivenBy(ops), n) + heaps[n]
  {
    forall i | 0 <= i < |ops|
      ensures heaps[i] + TakenBy(ops)[i] == heaps[i + 1] + GivenBy(ops)[i]
    {
      StepConserves(capacity, heaps[i], ops[i], heaps[i + 1]);
    }
    Telescopes(TakenBy(ops), GivenBy(ops), heaps, n);
  }

  /** What is drained is no older than anything left behind, so a late submission is served after every newer one. */
  lemma DrainedBeforeKept(capacity: nat, heap: multiset<Entry>, op: Op, heap': multiset<Entry>, e: Entry, x: Entry)
    requires op.Drain? && Step(capacity, heap, op, heap') && e in op.drained && x in heap'
    ensures e.timestampNs > x.timestampNs
  {
    assert multiset(op.drained)[e] > 0 && heap'[x] > 0;
  }

  /** A refused entry is no newer than anything queued; on a queue of positive capacity there is something queued. */
  lemma RefusedIsOld(capacity: nat, heap: multiset<Entry>, e: Entry, heap': multiset<Entry>)
    requires capacity > 0 && Step(capacity, heap, Push(e, false), heap')
    ensures heap != multiset{} && forall x :: x in heap ==> e.timestampNs <= x.timestampNs
  {
  }

  // ---- The queue ----

  class FiloGrgQueue {
    var heap: multiset<Entry>
    const capacity: nat

    constructor (capacity: nat)
      ensures heap == multiset{} && this.capacity == capacity
    {
      heap := multiset{};
      this.capacity := capacity;
    }

    /** The iterator's minimum over the heap. */
    method OldestTime() returns (t: u64)
      ensures IsOldestTime(t, heap)
      ensures heap == multiset{} ==> t == 0
      ensures heap != multiset{} ==> exists x :: x in heap && x.timestampNs == t
      ensures forall x :: x in heap ==> t <= x.timestampNs
    {
      t := 0;
      var rest, first := heap, true;
      ghost var seen: multiset<Entry> := multiset{};
      while rest != multiset{}
        invariant rest + seen == heap && IsOldestTime(t, seen)
        invariant first <==> seen == multiset{}
        decreases |rest|
      {
        var x :| x in rest;
        if first || x.timestampNs < t {
          t := x.timestampNs;
        }
        first := false;
        rest, seen := rest - multiset{x}, seen + multiset{x};
        assert x in seen;
      }
      assert seen == heap;
    }

    /** At capacity an entry that is not the oldest is added all the same, without evicting. */
    method Push(e: Entry) returns (ok: bool)
      modifies this
      ensures Step(capacity, old(heap), Op.Push(e, ok), heap)
      ensures ok <==>
        || |old(heap)| < capacity || (exists x :: x in old(heap) && x.timestampNs < e.timestampNs)
        || (old(heap) == multiset{} && e.timestampNs > 0)
      ensures heap == if ok then old(heap) + multiset{e} else old(heap)
    {
      if |heap| >= capacity {
        var minTs := OldestTime();
        if e.timestampNs <= minTs {
          return false;
        }
      }
      heap := heap + multiset{e};
      return true;
    }

    method PeekNewest() returns (r: Option<Entry>)
      ensures r.None? <==> heap == multiset{}
      ensures r.Some? ==> Newest(r.value, heap)
      ensures r.Some? ==> r.value in heap && forall x :: x in heap ==> x.timestampNs <= r.value.timestampNs
    {
      if heap == multiset{} {
        return None;
      }
      NewestExists(heap);
      var e :| Newest(e, heap);
      return Some(e);
    }

    method PopNewest() returns (r: Option<Entry>)
      modifies this
      ensures Step(capacity, old(heap), Op.Pop(r), heap)
      ensures r.None? <==> old(heap) == multiset{}
      ensures r.None? ==> heap == multiset{}
      ensures r.Some? ==> r.value in old(heap) && heap == old(heap) - multiset{r.value}
      ensures r.Some? ==> forall x :: x in old(heap) ==> x.timestampNs <= r.value.timestampNs
    {
      r := PeekNewest();
      if r.Some? {
        heap := heap - multiset{r.value};
      }
    }

    /** Pops while the newest is at or after the cutoff. */
    method DrainNewerThan(cutoffNs: u64) returns (out: seq<Entry>)
      modifies this
      ensures Step(capacity, old(heap), Op.Drain(cutoffNs, out), heap)
      ensures multiset(out) + heap == old(heap)
      ensures forall i, j :: 0 <= i < j < |out| ==> out[i].timestampNs >= out[j].timestampNs
      ensures forall e :: e in out ==> e.timestampNs >= cutoffNs
      ensures forall e :: e in heap ==> e.timestampNs < cutoffNs
    {
      out := [];
      while true
        invariant Draining(old(heap), cutoffNs, out, heap)
        decreases |heap|
      {
        var e := PeekNewest();
        if e.None? || e.value.timestampNs < cutoffNs {
          break;
        }
        MoveOne(old(heap), cutoffNs, out, heap, e.value);
        heap := heap - multiset{e.value};
        out := out + [e.value];
      }
      DrainSplits(capacity, old(heap), cutoffNs, out, heap);
    }
  }

  /** Midway through a drain: nothing lost, all taken entries qualify, newest first, and nothing left is newer than the
      last one taken. */
  predicate Draining(before: multiset<Entry>, cutoffNs: u64, out: seq<Entry>, heap: multiset<Entry>) {
    && multiset(out) + heap == before && NewestFirst(out)
    && (forall e :: e in out ==> e.timestampNs >= cutoffNs)
    && (out != [] ==> forall x :: x in heap ==> x.timestampNs <= out[|out| - 1].timestampNs)
  }

  lemma MoveConserves(out: seq<Entry>, heap: multiset<Entry>, e: Entry)
    requires e in heap
    ensures multiset(out + [e]) + (heap - multiset{e}) == multiset(out) + heap
  {
    assert multiset(out + [e]) == multiset(out) + multiset{e};
    assert multiset{e} + (heap - multiset{e}) == heap;
  }

  lemma AppendOldest(out: seq<Entry>, e: Entry)
    requires NewestFirst(out) && (out != [] ==> e.timestampNs <= out[|out| - 1].timestampNs)
    ensures NewestFirst(out + [e])
  {
    forall i, j | 0 <= i < j < |out| + 1
      ensures (out + [e])[i].timestampNs >= (out + [e])[j].timestampNs
    {
      assert i < |out| - 1 ==> out[i].timestampNs >= out[|out| - 1].timestampNs;
    }
  }

  lemma MoveOne(before: multiset<Entry>, cutoffNs: u64, out: seq<Entry>, heap: multiset<Entry>, e: Entry)
    requires Draining(before, cutoffNs, out, heap) && Newest(e, heap) && e.timestampNs >= cutoffNs
    ensures Draining(before, cutoffNs, out + [e], heap - multiset{e})
  {
    MoveConserves(out, heap, e);
    AppendOldest(out, e);
  }

  lemma DrainSplits(capacity: nat, before: multiset<Entry>, cutoffNs: u64, out: seq<Entry>, heap: multiset<Entry>)
    requires Draining(before, cutoffNs, out, heap) && forall e :: e in heap ==> e.timestampNs < cutoffNs
    ensures Step(capacity, before, Drain(cutoffNs, out), heap)
  {
    forall e
      ensures multiset(out)[e] == (if e.timestampNs >= cutoffNs then before[e] else 0)
        && heap[e] == (if e.timestampNs >= cutoffNs then 0 else before[e])
    {
      assert (multiset(out) + heap)[e] == before[e];
      assert heap[e] > 0 ==> e in heap;
      assert multiset(out)[e] > 0 ==> e in out;
    }
  }

  lemma {:induction false} NewestExists(heap: multiset<Entry>)
    requires heap != multiset{}
    ensures exists e :: Newest(e, heap)
    decreases |heap|
  {
    var x :| x in heap;
    var rest := heap - multiset{x};
    assert forall y :: y in heap ==> y == x || y in rest;
    if rest == multiset{} {
      assert Newest(x, heap);
    } else {
      NewestExists(rest);
      var e :| Newest(e, rest);
      assert Newest(if x.timestampNs > e.timestampNs then x else e, heap);
    }
  }
}
