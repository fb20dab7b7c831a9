/** The Merkle path walk of src/roughtime_source.ts, and the tree a server builds over a batch of requests. */
module MerkleWalk {
  import opened ByteOrder

  /** The first 32 bytes of SHA-512 of the concatenated parts; any function with 32-byte results. */
  type Hash = Bytes -> Digest

  function Leaf(h: Hash, packet: Bytes): Digest {
    h([0x00] + packet)
  }

  function Node(h: Hash, left: Digest, right: Digest): Digest {
    h([0x01] + left + right)
  }

  // ---- The walk ----

  /** JavaScript's `x >>= 1`: the number is first read as a signed 32-bit integer. */
  function ShiftRight(x: int): int
    requires -TWO_32 / 2 <= x < TWO_32
  {
    (if x >= TWO_32 / 2 then x - TWO_32 else x) / 2
  }

  function Step(h: Hash, cur: Digest, idx: int, node: Digest): Digest {
    if idx % 2 == 0 then Node(h, cur, node) else Node(h, node, cur)
  }

  /** The hash reached from cur by combining it with the nodes in turn. */
  function Climb(h: Hash, cur: Digest, idx: int, nodes: seq<Digest>): Digest
    requires -TWO_32 / 2 <= idx < TWO_32
    decreases |nodes|
  {
    if nodes == [] then cur else Climb(h, Step(h, cur, idx, nodes[0]), ShiftRight(idx), nodes[1..])
  }

  /** What is left of the index after n steps. */
  function IndexAfter(idx: int, n: nat): (r: int)
    requires -TWO_32 / 2 <= idx < TWO_32
    ensures -TWO_32 / 2 <= r < TWO_32
    decreases n
  {
    if n == 0 then idx else IndexAfter(ShiftRight(idx), n - 1)
  }

  function NodeAt(path: Bytes, k: nat): Digest
    requires 32 * k + 32 <= |path|
  {
    path[32 * k..32 * k + 32]
  }

  /** The whole nodes of a PATH value from the k-th on; a shorter rest is not read. */
  function NodesFrom(path: Bytes, k: nat): (nodes: seq<Digest>)
    requires 32 * k <= |path|
    ensures |nodes| == |path| / 32 - k
    decreases |path| / 32 - k
  {
    if 32 * k + 32 <= |path| then [NodeAt(path, k)] + NodesFrom(path, k + 1) else []
  }

  function Nodes(path: Bytes): (nodes: seq<Digest>)
    ensures |nodes| == |path| / 32
  {
    NodesFrom(path, 0)
  }

  /** The walk of validateRoughtimeResponse: the hash it ends at and what is left of the index. */
  method Walk(h: Hash, requestPacket: Bytes, indx: u32, path: Bytes) returns (cur: Digest, idx: int)
    ensures cur == Climb(h, Leaf(h, requestPacket), indx, Nodes(path))
    ensures idx == IndexAfter(indx, |path| / 32)
  {
    cur := Leaf(h, requestPacket);
    idx := indx;
    var pos := 0;
    ghost var k := 0;
    while pos + 32 <= |path|
      invariant pos == 32 * k <= |path|
      invariant -TWO_32 / 2 <= idx < TWO_32
      invariant Climb(h, cur, idx, NodesFrom(path, k)) == Climb(h, Leaf(h, requestPacket), indx, Nodes(path))
      invariant IndexAfter(idx, |path| / 32 - k) == IndexAfter(indx, |path| / 32)
    {
      var node: Digest := path[pos..pos + 32];
      assert NodesFrom(path, k)[0] == node && NodesFrom(path, k)[1..] == NodesFrom(path, k + 1);
      cur := if idx % 2 == 0 then h([0x01] + cur + node) else h([0x01] + node + cur);
      idx := ShiftRight(idx);
      pos := pos + 32;
      k := k + 1;
    }
  }

  // ---- When the index is used up ----

  lemma {:induction false} NegativeIndexStays(idx: int, n: nat)
    requires -TWO_32 / 2 <= idx < 0
    ensures IndexAfter(idx, n) < 0
    decreases n
  {
    if n > 0 {
      NegativeIndexStays(ShiftRight(idx), n - 1);
    }
  }

  lemma {:induction false} SmallIndexUsedUp(idx: nat, n: nat)
    requires idx < TWO_32 / 2
    ensures IndexAfter(idx, n) == 0 <==> idx < Pow2(n)
  {
    if n > 0 {
      SmallIndexUsedUp(idx / 2, n - 1);
    }
  }

  /** The check `idx !== 0` passes exactly for a 31-bit index below 2^(number of nodes). An INDX with its top bit set
      turns negative at the first shift and is refused whatever the path. */
  lemma IndexUsedUp(idx: u32, n: nat)
    ensures IndexAfter(idx, n) == 0 <==> idx < TWO_32 / 2 && idx < Pow2(n)
  {
    if idx < TWO_32 / 2 {
      SmallIndexUsedUp(idx, n);
    } else if n > 0 {
      NegativeIndexStays(ShiftRight(idx), n - 1);
    }
  }

  // ---- Binding ----

  /** Two different inputs with the same hash. */
  predicate Collide(h: Hash, x: Bytes, y: Bytes) {
    x != y && h(x) == h(y)
  }

  function StepInput(cur: Digest, idx: int, node: Digest): Bytes {
    if idx % 2 == 0 then [0x01] + cur + node else [0x01] + node + cur
  }

  /** Unwinds two walks that end at the same hash: from the first step on which they agree, back one step. */
  function Unwind(h: Hash, a: Digest, b: Digest, idx: int, p: seq<Digest>, q: seq<Digest>): (Bytes, Bytes)
    requires -TWO_32 / 2 <= idx < TWO_32 && |p| == |q|
    decreases |p|
  {
    if p == [] then ([], [])
    else
      var a', b' := Step(h, a, idx, p[0]), Step(h, b, idx, q[0]);
      if a' == b' && StepInput(a, idx, p[0]) != StepInput(b, idx, q[0]) then
          (StepInput(a, idx, p[0]), StepInput(b, idx, q[0]))
      else Unwind(h, a', b', ShiftRight(idx), p[1..], q[1..])
  }

  lemma StepInputInjective(a: Digest, b: Digest, idx: int, m: Digest, n: Digest)
    requires StepInput(a, idx, m) == StepInput(b, idx, n)
    ensures a == b && m == n
  {
    if idx % 2 == 0 {
      ConcatInjective([0x01] + a, m, [0x01] + b, n);
      ConcatInjective([0x01], a, [0x01], b);
    } else {
      ConcatInjective([0x01] + m, a, [0x01] + n, b);
      ConcatInjective([0x01], m, [0x01], n);
    }
  }

  /** Walks of the same length from the same index that meet start at the same hash and take the same path, or exhibit a
      collision. */
  lemma {:induction false} ClimbBinds(h: Hash, a: Digest, b: Digest, idx: int, p: seq<Digest>, q: seq<Digest>)
    requires -TWO_32 / 2 <= idx < TWO_32 && |p| == |q|
    requires Climb(h, a, idx, p) == Climb(h, b, idx, q)
    ensures (a == b && p == q) || Collide(h, Unwind(h, a, b, idx, p, q).0, Unwind(h, a, b, idx, p, q).1)
    decreases |p|
  {
    if p != [] {
      var a', b' := Step(h, a, idx, p[0]), Step(h, b, idx, q[0]);
      if a' == b' && StepInput(a, idx, p[0]) != StepInput(b, idx, q[0]) {
        assert h(StepInput(a, idx, p[0])) == a' && h(StepInput(b, idx, q[0])) == b';
      } else {
        ClimbBinds(h, a', b', ShiftRight(idx), p[1..], q[1..]);
        if a' == b' && p[1..] == q[1..] {
          StepInputInjective(a, b, idx, p[0], q[0]);
          assert p == [p[0]] + p[1..] && q == [q[0]] + q[1..];
        }
      }
    }
  }

  /** The collision two accepted requests would give. */
  function WalkCollision(h: Hash, r: Bytes, s: Bytes, indx: u32, p: Bytes, q: Bytes): (Bytes, Bytes)
    requires |p| / 32 == |q| / 32
  {
    if Leaf(h, r) == Leaf(h, s) && r != s then ([0x00] + r, [0x00] + s)
    else Unwind(h, Leaf(h, r), Leaf(h, s), indx, Nodes(p), Nodes(q))
  }

  /** For one ROOT, INDX and number of nodes the walk admits one request packet and one path, up to an explicit hash
      collision. */
  lemma WalkBinds(h: Hash, r: Bytes, s: Bytes, indx: u32, p: Bytes, q: Bytes)
    requires |p| / 32 == |q| / 32
    requires Climb(h, Leaf(h, r), indx, Nodes(p)) == Climb(h, Leaf(h, s), indx, Nodes(q))
    ensures (r == s && Nodes(p) == Nodes(q)) || Collide(h, WalkCollision(h, r, s, indx, p, q).0,
      WalkCollision(h, r, s, indx, p, q).1)
  {
    if Leaf(h, r) == Leaf(h, s) && r != s {
      assert ([0x00] + r)[1..] == r && ([0x00] + s)[1..] == s;
    } else {
      ClimbBinds(h, Leaf(h, r), Leaf(h, s), indx, Nodes(p), Nodes(q));
    }
  }

  // ---- The server's tree (section 5.3.1 of draft-ietf-ntp-roughtime) ----

  /** The level above: neighbours combined in pairs. */
  function Level(h: Hash, hashes: seq<Digest>): (up: seq<Digest>)
    ensures |up| == |hashes| / 2
  {
    seq(|hashes| / 2, i requires 0 <= i < |hashes| / 2 => Node(h, hashes[2 * i], hashes[2 * i + 1]))
  }

  function Root(h: Hash, hashes: seq<Digest>, depth: nat): Digest
    requires |hashes| == Pow2(depth)
    decreases depth
  {
    if depth == 0 then hashes[0] else Root(h, Level(h, hashes), depth - 1)
  }

  /** The hash of a tree over 2^depth packets, from the top down: a packet hashes behind a zero byte, two halves behind
      a one. */
  function TreeHash(h: Hash, packets: seq<Bytes>, depth: nat): Digest
    requires |packets| == Pow2(depth)
    decreases depth
  {
    if depth == 0 then h([0] + packets[0])
    else
      var half := Pow2(depth - 1);
      h([1] + TreeHash(h, packets[..half], depth - 1) + TreeHash(h, packets[half..], depth - 1))
  }

  function Leaves(h: Hash, packets: seq<Bytes>): (hashes: seq<Digest>)
    ensures |hashes| == |packets|
  {
    seq(|packets|, i requires 0 <= i < |packets| => Leaf(h, packets[i]))
  }

  lemma LevelOfHalves(h: Hash, hashes: seq<Digest>, half: nat)
    requires |hashes| == 4 * half
    ensures Level(h, hashes[..2 * half]) == Level(h, hashes)[..half]
    ensures Level(h, hashes[2 * half..]) == Level(h, hashes)[half..]
  {
  }

  lemma RootOfTwo(h: Hash, a: Digest, b: Digest)
    ensures Root(h, [a, b], 1) == Node(h, a, b)
  {
    assert Level(h, [a, b]) == [Node(h, a, b)];
  }

  /** A tree's root is the node over the roots of its halves. */
  lemma {:induction false} RootSplits(h: Hash, hashes: seq<Digest>, depth: nat, half: nat)
    requires half == Pow2(depth) && |hashes| == 2 * half
    ensures Root(h, hashes, depth + 1) == Node(h, Root(h, hashes[..half], depth), Root(h, hashes[half..], depth))
    decreases depth
  {
    if depth == 0 {
      assert hashes == [hashes[0], hashes[1]];
      RootOfTwo(h, hashes[0], hashes[1]);
    } else {
      var quarter := Pow2(depth - 1);
      LevelOfHalves(h, hashes, quarter);
      RootSplits(h, Level(h, hashes), depth - 1, quarter);
    }
  }

  lemma LeavesOfHalves(h: Hash, packets: seq<Bytes>, half: nat)
    requires half <= |packets|
    ensures Leaves(h, packets)[..half] == Leaves(h, packets[..half])
    ensures Leaves(h, packets)[half..] == Leaves(h, packets[half..])
  {
  }

  lemma RootOfHalves(h: Hash, hashes: seq<Digest>, depth: nat, half: nat, a: Digest, b: Digest)
    requires half == Pow2(depth) && |hashes| == 2 * half
    requires a == Root(h, hashes[..half], depth) && b == Root(h, hashes[half..], depth)
    ensures Root(h, hashes, depth + 1) == h([1] + a + b)
  {
    RootSplits(h, hashes, depth, half);
  }

  lemma TreeHashOfHalves(h: Hash, packets: seq<Bytes>, depth: nat, half: nat, a: Digest, b: Digest)
    requires half == Pow2(depth) && |packets| == 2 * half
    requires a == TreeHash(h, packets[..half], depth) && b == TreeHash(h, packets[half..], depth)
    ensures TreeHash(h, packets, depth + 1) == h([1] + a + b)
  {
  }

  /** The root built level by level is the hash from the top down. */
  predicate SameHash(h: Hash, packets: seq<Bytes>, depth: nat) {
    |packets| == Pow2(depth) && Root(h, Leaves(h, packets), depth) == TreeHash(h, packets, depth)
  }

  lemma HalvesMeet(h: Hash, left: seq<Bytes>, right: seq<Bytes>, depth: nat, packets: seq<Bytes>)
    requires SameHash(h, left, depth) && SameHash(h, right, depth) && packets == left + right
    ensures SameHash(h, packets, depth + 1)
  {
    var half := Pow2(depth);
    assert packets[..half] == left && packets[half..] == right;
    LeavesOfHalves(h, packets, half);
    RootOfHalves(h, Leaves(h, packets), depth, half, TreeHash(h, left, depth), TreeHash(h, right, depth));
    TreeHashOfHalves(h, packets, depth, half, TreeHash(h, left, depth), TreeHash(h, right, depth));
  }

  /** Building the tree level by level, as a server does, gives the hash of the tree from the top down. */
  lemma {:induction false} RootIsTreeHash(h: Hash, packets: seq<Bytes>, depth: nat)
    requires |packets| == Pow2(depth)
    ensures SameHash(h, packets, depth)
    decreases depth
  {
    if depth > 0 {
      var left, right := Halves(packets, depth);
      RootIsTreeHash(h, left, depth - 1);
      RootIsTreeHash(h, right, depth - 1);
      HalvesMeet(h, left, right, depth - 1, packets);
    }
  }

  lemma Halves(packets: seq<Bytes>, depth: nat) returns (left: seq<Bytes>, right: seq<Bytes>)
    requires depth > 0 && |packets| == Pow2(depth)
    ensures |left| == |right| == Pow2(depth - 1) && packets == left + right
  {
    var half := Pow2(depth - 1);
    left, right := packets[..half], packets[half..];
  }

  function Sibling(i: nat): nat {
    if i % 2 == 0 then i + 1 else i - 1
  }

  /** The path the server sends for position i: its sibling on every level. */
  function PathFor(h: Hash, hashes: seq<Digest>, depth: nat, i: nat): (p: seq<Digest>)
    requires |hashes| == Pow2(depth) && i < |hashes|
    ensures |p| == depth
    decreases depth
  {
    if depth == 0 then [] else [hashes[Sibling(i)]] + PathFor(h, Level(h, hashes), depth - 1, i / 2)
  }

  lemma LevelHalves(h: Hash, hashes: seq<Digest>, depth: nat)
    requires depth > 0 && |hashes| == Pow2(depth)
    ensures |hashes| == 2 * Pow2(depth - 1) && |Level(h, hashes)| == Pow2(depth - 1)
  {
  }

  /** One step of the walk is one level of the tree, for any index of the position's parity. */
  lemma OneLevel(h: Hash, hashes: seq<Digest>, i: nat, idx: int)
    requires |hashes| % 2 == 0 && i < |hashes| && idx % 2 == i % 2
    ensures Level(h, hashes)[i / 2] == Step(h, hashes[i], idx, hashes[Sibling(i)])
  {
  }

  /** The climb an index of any width would make. */
  function ClimbFrom(h: Hash, cur: Digest, i: nat, nodes: seq<Digest>): Digest
    decreases |nodes|
  {
    if nodes == [] then cur else ClimbFrom(h, Step(h, cur, i, nodes[0]), i / 2, nodes[1..])
  }

  lemma {:induction false} TreeClimb(h: Hash, hashes: seq<Digest>, depth: nat, i: nat)
    requires |hashes| == Pow2(depth) && i < |hashes|
    ensures ClimbFrom(h, hashes[i], i, PathFor(h, hashes, depth, i)) == Root(h, hashes, depth)
    decreases depth
  {
    if depth > 0 {
      LevelHalves(h, hashes, depth);
      OneLevel(h, hashes, i, i);
      TreeClimb(h, Level(h, hashes), depth - 1, i / 2);
    }
  }

  lemma {:induction false} SmallIndexClimbs(h: Hash, cur: Digest, i: nat, nodes: seq<Digest>)
    requires i < TWO_32 / 2
    ensures Climb(h, cur, i, nodes) == ClimbFrom(h, cur, i, nodes)
    decreases |nodes|
  {
    if nodes != [] {
      SmallIndexClimbs(h, Step(h, cur, i, nodes[0]), i / 2, nodes[1..]);
    }
  }

  /** p is two to the power of at least n. */
  predicate Doubled(p: int, n: nat)
    decreases n
  {
    if n == 0 then p > 0 else p % 2 == 0 && Doubled(p / 2, n - 1)
  }

  /** Once the top bit has been read as a sign, the index is a power of two below the position; its low bits are the
      same. */
  lemma {:induction false} SignedIndexClimbs(h: Hash, cur: Digest, i: nat, p: int, nodes: seq<Digest>)
    requires Doubled(p, |nodes|) && -TWO_32 / 2 <= i - p < 0
    ensures Climb(h, cur, i - p, nodes) == ClimbFrom(h, cur, i, nodes)
    decreases |nodes|
  {
    if nodes != [] {
      var idx := i - p;
      assert idx % 2 == i % 2 && idx / 2 == i / 2 - p / 2;
      SignedIndexClimbs(h, Step(h, cur, idx, nodes[0]), i / 2, p / 2, nodes[1..]);
    }
  }

  lemma {:induction false} Pow2Doubled(e: nat, n: nat)
    requires n <= e
    ensures Doubled(Pow2(e), n)
  {
    if n > 0 {
      assert Pow2(e) / 2 == Pow2(e - 1);
      Pow2Doubled(e - 1, n - 1);
    }
  }

  lemma Pow2Of31()
    ensures Pow2(31) == TWO_32 / 2
  {
    assert Pow2(8) == 0x100;
    assert Pow2(16) == 0x1_0000;
    assert Pow2(24) == 0x100_0000;
  }

  lemma {:induction false} Pow2Monotone(m: nat, n: nat)
    requires m <= n
    ensures Pow2(m) <= Pow2(n)
  {
    if m < n {
      Pow2Monotone(m, n - 1);
    }
  }

  lemma HalfRangeDoubled(n: nat)
    requires n <= 31
    ensures Doubled(TWO_32 / 2, n)
  {
    Pow2Of31();
    Pow2Doubled(31, n);
  }

  lemma HighIndexClimbs(h: Hash, cur: Digest, i: nat, nodes: seq<Digest>)
    requires TWO_32 / 2 <= i < TWO_32 && 0 < |nodes| <= 32
    ensures Climb(h, cur, i, nodes) == ClimbFrom(h, cur, i, nodes)
  {
    HalfRangeDoubled(|nodes| - 1);
    SignedIndexClimbs(h, Step(h, cur, i, nodes[0]), i / 2, TWO_32 / 2, nodes[1..]);
  }

  /** The walk along the server's path ends at the tree's root, from every leaf below 2^31 of any tree, and from every
      leaf of a tree of depth 32: what refuses the upper half is the check of the leftover index alone. */
  lemma PathReachesRoot(h: Hash, hashes: seq<Digest>, depth: nat, i: nat)
    requires |hashes| == Pow2(depth) && i < |hashes| && i < TWO_32
    requires i < TWO_32 / 2 || depth <= 32
    ensures Climb(h, hashes[i], i, PathFor(h, hashes, depth, i)) == Root(h, hashes, depth)
  {
    var path := PathFor(h, hashes, depth, i);
    TreeClimb(h, hashes, depth, i);
    if i < TWO_32 / 2 {
      SmallIndexClimbs(h, hashes[i], i, path);
    } else {
      HighIndexClimbs(h, hashes[i], i, path);
    }
  }

  /** Nodes end to end, as they travel in PATH. */
  function Join(nodes: seq<Digest>): (b: Bytes)
    ensures |b| == 32 * |nodes|
  {
    if nodes == [] then [] else Join(nodes[..|nodes| - 1]) + nodes[|nodes| - 1]
  }

  lemma {:induction false} NodeOfJoin(nodes: seq<Digest>, rest: Bytes, k: nat)
    requires k < |nodes|
    ensures (Join(nodes) + rest)[32 * k..32 * k + 32] == nodes[k]
  {
    var m := |nodes| - 1;
    if k < m {
      NodeOfJoin(nodes[..m], nodes[m] + rest, k);
      assert Join(nodes) + rest == Join(nodes[..m]) + (nodes[m] + rest);
    }
  }

  lemma {:induction false} NodesOfJoinFrom(nodes: seq<Digest>, k: nat)
    requires k <= |nodes|
    ensures NodesFrom(Join(nodes), k) == nodes[k..]
    decreases |nodes| - k
  {
    if k < |nodes| {
      NodesOfJoinFrom(nodes, k + 1);
      NodeOfJoin(nodes, [], k);
      assert Join(nodes) + [] == Join(nodes);
    }
  }

  /** The nodes the client reads are the nodes the server sent. */
  lemma NodesOfJoin(nodes: seq<Digest>)
    ensures Nodes(Join(nodes)) == nodes
  {
    NodesOfJoinFrom(nodes, 0);
  }
}
