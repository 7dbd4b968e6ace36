/** The consistent-hash ring (lib/consistenthash/consistenthash.go), for an arbitrary hash
    function, and the ring each cluster member builds (cluster/cluster_database.go). */
module ConsistentHash {
  import opened Bytes

  type Hash = Bytes -> nat

  /** Which node stands at which position of the circle. */
  type Ring = map<nat, Bytes>

  ghost predicate Sorted(s: seq<nat>) {
    forall i, j :: 0 <= i < j < |s| ==> s[i] <= s[j]
  }

  /** p is the first position at or after h, or the least of all when there is none. */
  ghost predicate IsSuccessor(ring: Ring, h: nat, p: nat) {
    && p in ring
    && if h <= p then forall q :: q in ring && h <= q ==> p <= q
       else forall q :: q in ring ==> q < h && p <= q
  }

  /** The node that owns hash value h; an empty ring picks the empty name. */
  ghost predicate Picks(ring: Ring, h: nat, node: Bytes) {
    if ring == map[] then node == [] else exists p :: IsSuccessor(ring, h, p) && ring[p] == node
  }

  /** The ring after adding nodes one by one: empty names are skipped and a node whose position
      is taken replaces the one there. */
  function AddAll(hash: Hash, ring: Ring, nodes: seq<Bytes>): Ring
    decreases |nodes|
  {
    if nodes == [] then ring
    else AddAll(hash, if nodes[0] == [] then ring else ring[hash(nodes[0]) := nodes[0]], nodes[1..])
  }

  class NodeMap {
    const hashFunc: Hash
    var nodeHashs: seq<nat>
    var nodehashMap: Ring

    ghost predicate Valid()
      reads this
    {
      Sorted(nodeHashs) && forall h :: h in nodeHashs <==> h in nodehashMap
    }

    constructor (fn: Hash)
      ensures Valid() && hashFunc == fn && nodehashMap == map[]
    {
      hashFunc, nodeHashs, nodehashMap := fn, [], map[];
    }

    method AddNode(keys: seq<Bytes>)
      requires Valid()
      modifies this
      ensures Valid() && nodehashMap == AddAll(hashFunc, old(nodehashMap), keys)
    {
      for i := 0 to |keys|
        invariant AddAll(hashFunc, nodehashMap, keys[i..]) == AddAll(hashFunc, old(nodehashMap), keys)
        invariant forall h :: h in nodeHashs <==> h in nodehashMap
      {
        assert keys[i..][1..] == keys[i + 1..];
        if keys[i] == [] {
          continue;
        }
        var hash := hashFunc(keys[i]);
        nodeHashs := nodeHashs + [hash];
        nodehashMap := nodehashMap[hash := keys[i]];
      }
      nodeHashs := SortInts(nodeHashs);
    }

    /** Binary search for the first position at or after the key's, wrapping to the start. */
    method PickNode(key: Bytes) returns (node: Bytes)
      requires Valid()
      ensures Picks(nodehashMap, hashFunc(key), node)
    {
      if |nodeHashs| == 0 {
        assert nodehashMap == map[];
        return [];
      }
      var hash := hashFunc(key);
      var i, j := 0, |nodeHashs|;
      while i < j
        invariant 0 <= i <= j <= |nodeHashs|
        invariant forall k :: 0 <= k < i ==> nodeHashs[k] < hash
        invariant forall k :: j <= k < |nodeHashs| ==> hash <= nodeHashs[k]
      {
        var mid := (i + j) / 2;
        if nodeHashs[mid] >= hash {
          j := mid;
        } else {
          i := mid + 1;
        }
      }
      if i == |nodeHashs| {
        i := 0;
      }
      assert nodeHashs[i] in nodeHashs;
      assert IsSuccessor(nodehashMap, hash, nodeHashs[i]);
      return nodehashMap[nodeHashs[i]];
    }
  }

  lemma NothingSorted()
    ensures Sorted([])
  {
  }

  lemma SortedInsert(r: seq<nat>, j: nat, v: nat)
    requires Sorted(r) && j <= |r| && (j > 0 ==> r[j - 1] <= v) && forall k :: j <= k < |r| ==> v <= r[k]
    ensures Sorted(r[..j] + [v] + r[j..])
  {
  }

  lemma InsertedOnce(r: seq<nat>, j: nat, v: nat)
    requires j <= |r|
    ensures multiset(r[..j] + [v] + r[j..]) == multiset(r) + multiset{v}
  {
    assert r == r[..j] + r[j..];
  }

  /** sort.Ints, as an insertion sort. */
  method SortInts(s: seq<nat>) returns (r: seq<nat>)
    ensures Sorted(r) && multiset(r) == multiset(s)
    ensures forall h :: h in r <==> h in s
  {
    hide Sorted;
    r := [];
    NothingSorted();
    for i := 0 to |s|
      invariant Sorted(r) && multiset(r) == multiset(s[..i])
    {
      var j := |r|;
      while j > 0 && r[j - 1] > s[i]
        invariant 0 <= j <= |r|
        invariant forall k :: j <= k < |r| ==> s[i] <= r[k]
      {
        j := j - 1;
      }
      SortedInsert(r, j, s[i]);
      InsertedOnce(r, j, s[i]);
      assert s[..i + 1] == s[..i] + [s[i]];
      r := r[..j] + [s[i]] + r[j..];
    }
    assert s[..|s|] == s;
    forall h ensures h in r <==> h in s {
      assert h in r <==> h in multiset(r);
      assert h in s <==> h in multiset(s);
    }
  }

  // ---- ownership

  lemma {:induction false} LeastPosition(s: set<nat>) returns (p: nat)
    requires s != {}
    ensures p in s && forall q <- s :: p <= q
    decreases s
  {
    p :| p in s;
    var rest := s - {p};
    if rest != {} {
      var q := LeastPosition(rest);
      if q < p {
        p := q;
      }
    }
    assert s == rest + {p} || forall x <- s :: x in rest || p <= x;
  }

  /** Every hash value has an owner. */
  lemma OwnerExists(ring: Ring, h: nat) returns (node: Bytes)
    ensures Picks(ring, h, node)
  {
    if ring == map[] {
      return [];
    }
    var after := set q | q in ring && h <= q;
    var p: nat;
    if after != {} {
      p := LeastPosition(after);
      forall q | q in ring && h <= q ensures p <= q {
        assert q in after;
      }
    } else {
      p := LeastPosition(ring.Keys);
      forall q | q in ring ensures q < h && p <= q {
        assert q !in after && q in ring.Keys;
      }
    }
    assert p in ring;
    assert IsSuccessor(ring, h, p);
    return ring[p];
  }

  lemma OwnerUnique(ring: Ring, h: nat, a: Bytes, b: Bytes)
    requires Picks(ring, h, a) && Picks(ring, h, b)
    ensures a == b
  {
    if ring != map[] {
      var p :| IsSuccessor(ring, h, p) && ring[p] == a;
      var q :| IsSuccessor(ring, h, q) && ring[q] == b;
      assert p == q;
    }
  }

  const CIRCLE := 0x1_0000_0000

  /** How far clockwise from h the position p lies, on a circle of 2^32. */
  function Clockwise(h: nat, p: nat): nat {
    (p - h) % CIRCLE
  }

  /** The owner of a hash value is the node that comes first clockwise from it, past the top of the
      circle if need be. */
  lemma FirstClockwise(ring: Ring, h: nat, node: Bytes)
    requires h < CIRCLE && forall p :: p in ring ==> p < CIRCLE
    ensures ring != map[] ==>
      (Picks(ring, h, node) <==>
       exists p :: p in ring && ring[p] == node && forall q :: q in ring ==> Clockwise(h, p) <= Clockwise(h, q))
  {
    forall p | p in ring
      ensures IsSuccessor(ring, h, p) <==> forall q :: q in ring ==> Clockwise(h, p) <= Clockwise(h, q)
    {
      NearestIff(ring, h, p);
    }
  }

  lemma NearestIff(ring: Ring, h: nat, p: nat)
    requires h < CIRCLE && p in ring && forall q :: q in ring ==> q < CIRCLE
    ensures IsSuccessor(ring, h, p) <==> forall q :: q in ring ==> Clockwise(h, p) <= Clockwise(h, q)
  {
    hide Clockwise;
    forall q | q in ring {
      ClockwiseIs(h, q);
    }
  }

  lemma ClockwiseIs(h: nat, p: nat)
    requires h < CIRCLE && p < CIRCLE
    ensures Clockwise(h, p) == if h <= p then p - h else p + CIRCLE - h
  {
  }

  /** Adding one node moves a hash value to that node or not at all. */
  lemma OneMoves(ring: Ring, p: nat, node: Bytes, h: nat, before: Bytes, after: Bytes)
    requires Picks(ring, h, before) && Picks(ring[p := node], h, after)
    ensures after == before || after == node
  {
    var ring' := ring[p := node];
    assert p in ring';
    var q' :| IsSuccessor(ring', h, q') && ring'[q'] == after;
    if q' != p {
      assert forall x :: x in ring ==> x in ring';
      assert IsSuccessor(ring, h, q');
      OwnerUnique(ring, h, before, ring[q']);
    }
  }

  /** Adding any batch of nodes, even with hash collisions, moves a key only to one of them. */
  lemma {:induction false} MinimalMovement(hash: Hash, ring: Ring, nodes: seq<Bytes>, h: nat, before: Bytes,
                                           after: Bytes)
    requires Picks(ring, h, before) && Picks(AddAll(hash, ring, nodes), h, after)
    ensures after == before || (after in nodes && after != [])
    decreases |nodes|
  {
    hide Picks;
    if nodes == [] {
      OwnerUnique(ring, h, before, after);
    } else if nodes[0] == [] {
      MinimalMovement(hash, ring, nodes[1..], h, before, after);
    } else {
      var ring' := ring[hash(nodes[0]) := nodes[0]];
      var mid := OwnerExists(ring', h);
      OneMoves(ring, hash(nodes[0]), nodes[0], h, before, mid);
      MinimalMovement(hash, ring', nodes[1..], h, mid, after);
    }
  }

  // ---- agreement

  ghost predicate Distinct(hash: Hash, nodes: set<Bytes>) {
    forall a, b :: a in nodes && b in nodes && a != b ==> hash(a) != hash(b)
  }

  /** The named nodes of a list. */
  function Named(nodes: seq<Bytes>): set<Bytes> {
    set n | n in nodes && n != []
  }

  /** The ring of a set of nodes with distinct hashes. */
  ghost predicate IsRingOf(hash: Hash, ring: Ring, nodes: set<Bytes>) {
    && (forall n :: n in nodes ==> hash(n) in ring && ring[hash(n)] == n)
    && (forall p :: p in ring ==> ring[p] in nodes && hash(ring[p]) == p)
  }

  lemma {:induction false} AddAllIsRing(hash: Hash, ring: Ring, base: set<Bytes>, nodes: seq<Bytes>)
    requires IsRingOf(hash, ring, base) && Distinct(hash, base + Named(nodes))
    ensures IsRingOf(hash, AddAll(hash, ring, nodes), base + Named(nodes))
    decreases |nodes|
  {
    if nodes == [] {
      assert base + Named(nodes) == base;
    } else {
      var n, rest := nodes[0], nodes[1..];
      assert nodes == [n] + rest;
      if n == [] {
        assert Named(nodes) == Named(rest);
        AddAllIsRing(hash, ring, base, rest);
      } else {
        assert base + {n} + Named(rest) == base + Named(nodes);
        OneRing(hash, ring, base, n);
        AddAllIsRing(hash, ring[hash(n) := n], base + {n}, rest);
      }
    }
  }

  lemma OneRing(hash: Hash, ring: Ring, base: set<Bytes>, n: Bytes)
    requires IsRingOf(hash, ring, base) && Distinct(hash, base + {n})
    ensures IsRingOf(hash, ring[hash(n) := n], base + {n})
  {
    var ring' := ring[hash(n) := n];
    forall p | p in ring' ensures ring'[p] in base + {n} && hash(ring'[p]) == p {
      if p != hash(n) {
        assert p in ring;
      }
    }
    forall m | m in base + {n} ensures hash(m) in ring' && ring'[hash(m)] == m {
      if m != n {
        assert m in base && hash(m) != hash(n);
      }
    }
  }

  lemma RingIsUnique(hash: Hash, a: Ring, b: Ring, nodes: set<Bytes>)
    requires IsRingOf(hash, a, nodes) && IsRingOf(hash, b, nodes)
    ensures a == b
  {
    forall p | p in a ensures p in b && b[p] == a[p] {
      assert a[p] in nodes;
    }
    forall p | p in b ensures p in a {
      assert b[p] in nodes;
    }
  }

  function AddBatches(hash: Hash, ring: Ring, batches: seq<seq<Bytes>>): Ring
    decreases |batches|
  {
    if batches == [] then ring else AddBatches(hash, AddAll(hash, ring, batches[0]), batches[1..])
  }

  function Flatten(batches: seq<seq<Bytes>>): seq<Bytes> {
    if batches == [] then [] else batches[0] + Flatten(batches[1..])
  }

  lemma {:induction false} AddAllConcat(hash: Hash, ring: Ring, a: seq<Bytes>, b: seq<Bytes>)
    ensures AddAll(hash, ring, a + b) == AddAll(hash, AddAll(hash, ring, a), b)
    decreases |a|
  {
    if a == [] {
      assert a + b == b;
    } else {
      assert (a + b)[1..] == a[1..] + b;
      AddAllConcat(hash, if a[0] == [] then ring else ring[hash(a[0]) := a[0]], a[1..], b);
    }
  }

  lemma {:induction false} BatchesFlatten(hash: Hash, ring: Ring, batches: seq<seq<Bytes>>)
    ensures AddBatches(hash, ring, batches) == AddAll(hash, ring, Flatten(batches))
    decreases |batches|
  {
    if batches != [] {
      BatchesFlatten(hash, AddAll(hash, ring, batches[0]), batches[1..]);
      AddAllConcat(hash, ring, batches[0], Flatten(batches[1..]));
    }
  }

  /** Rings of the same nodes with distinct hashes are equal, whatever the order and the
      batches in which the nodes were added. */
  lemma OrderIrrelevant(hash: Hash, a: seq<seq<Bytes>>, b: seq<seq<Bytes>>)
    requires Named(Flatten(a)) == Named(Flatten(b)) && Distinct(hash, Named(Flatten(a)))
    ensures AddBatches(hash, map[], a) == AddBatches(hash, map[], b)
  {
    var nodes := Named(Flatten(a));
    BatchesFlatten(hash, map[], a);
    BatchesFlatten(hash, map[], b);
    assert {} + nodes == nodes;
    AddAllIsRing(hash, map[], {}, Flatten(a));
    AddAllIsRing(hash, map[], {}, Flatten(b));
    RingIsUnique(hash, AddBatches(hash, map[], a), AddBatches(hash, map[], b), nodes);
  }

  /** A list of every one of the nodes, each once. */
  ghost predicate Orders(order: seq<Bytes>, nodes: set<Bytes>) {
    multiset(order) == multiset(nodes)
  }

  /** Adding the nodes in either order gives every key the same owner. */
  ghost predicate SameOwners(hash: Hash, a: seq<Bytes>, b: seq<Bytes>) {
    forall key, n :: Picks(AddAll(hash, map[], a), hash(key), n) <==> Picks(AddAll(hash, map[], b), hash(key), n)
  }

  lemma {:induction false} SomeOrder(nodes: set<Bytes>) returns (order: seq<Bytes>)
    ensures Orders(order, nodes)
    decreases nodes
  {
    if nodes == {} {
      return [];
    }
    var n :| n in nodes;
    order := SomeOrder(nodes - {n});
    order := [n] + order;
    assert multiset(nodes) == multiset{n} + multiset(nodes - {n});
  }

  lemma OrderNames(order: seq<Bytes>, nodes: set<Bytes>)
    requires Orders(order, nodes) && [] !in nodes
    ensures Named(order) == nodes
  {
    forall n ensures n in order <==> n in nodes {
      assert n in order <==> n in multiset(order);
    }
  }

  /** Of two nodes with one hash, the one added last owns its own name. */
  lemma LastWins(hash: Hash, others: seq<Bytes>, x: Bytes, y: Bytes)
    requires x != [] && y != [] && hash(x) == hash(y)
    ensures Picks(AddAll(hash, map[], others + [x, y]), hash(x), y)
  {
    var ring := AddAll(hash, map[], others);
    AddAllConcat(hash, map[], others, [x, y]);
    var first, both := ring[hash(x) := x], ring[hash(x) := x][hash(y) := y];
    assert [x, y][1..] == [y] && [y][1..] == [];
    assert AddAll(hash, first, [y]) == AddAll(hash, both, [y][1..]) == both;
    assert IsSuccessor(both, hash(x), hash(y)) && both[hash(y)] == y;
  }

  /** Two nodes with one hash at the end of an order: swapping them moves a key. */
  lemma CollisionMoves(hash: Hash, nodes: set<Bytes>, x: Bytes, y: Bytes) returns (a: seq<Bytes>, b: seq<Bytes>)
    requires [] !in nodes && x in nodes && y in nodes && x != y && hash(x) == hash(y)
    ensures Orders(a, nodes) && Orders(b, nodes) && !SameOwners(hash, a, b)
  {
    var others := SomeOrder(nodes - {x, y});
    a, b := others + [x, y], others + [y, x];
    assert multiset(nodes) == multiset(nodes - {x, y}) + multiset{x, y};
    LastWins(hash, others, x, y);
    LastWins(hash, others, y, x);
    if SameOwners(hash, a, b) {
      assert Picks(AddAll(hash, map[], b), hash(x), y);
      OwnerUnique(AddAll(hash, map[], b), hash(x), x, y);
    }
  }

  lemma OrdersAgree(hash: Hash, nodes: set<Bytes>, a: seq<Bytes>, b: seq<Bytes>)
    requires [] !in nodes && Distinct(hash, nodes) && Orders(a, nodes) && Orders(b, nodes)
    ensures SameOwners(hash, a, b)
  {
    OrderNames(a, nodes);
    OrderNames(b, nodes);
    assert {} + nodes == nodes;
    AddAllIsRing(hash, map[], {}, a);
    AddAllIsRing(hash, map[], {}, b);
    RingIsUnique(hash, AddAll(hash, map[], a), AddAll(hash, map[], b), nodes);
  }

  /** All orders of adding a set of nodes give every key the same owner exactly if the hashes of
      the nodes are pairwise distinct. */
  lemma OrderIrrelevantIff(hash: Hash, nodes: set<Bytes>)
    requires [] !in nodes
    ensures (forall a, b :: Orders(a, nodes) && Orders(b, nodes) ==> SameOwners(hash, a, b)) <==> Distinct(hash, nodes)
  {
    hide SameOwners, Orders;
    if Distinct(hash, nodes) {
      forall a, b | Orders(a, nodes) && Orders(b, nodes) ensures SameOwners(hash, a, b) {
        OrdersAgree(hash, nodes, a, b);
      }
    } else {
      var x, y :| x in nodes && y in nodes && x != y && hash(x) == hash(y);
      var a, b := CollisionMoves(hash, nodes, x, y);
    }
  }

  /** MakeClusterDatabase: the configured peers in order and then the member itself. */
  method MakePicker(fn: Hash, self: Bytes, peers: seq<Bytes>) returns (nodes: seq<Bytes>, peerPicker: NodeMap)
    ensures nodes == peers + [self]
    ensures fresh(peerPicker) && peerPicker.Valid() && peerPicker.hashFunc == fn
    ensures peerPicker.nodehashMap == AddAll(fn, map[], peers + [self])
  {
    peerPicker := new NodeMap(fn);
    nodes := [];
    for i := 0 to |peers|
      invariant nodes == peers[..i]
    {
      nodes := nodes + [peers[i]];
    }
    assert nodes == peers;
    nodes := nodes + [self];
    peerPicker.AddNode(nodes);
  }
}
