/** The doubly linked list (datastruct/list/linked.go). The source panics on an index that
    is out of range; here that is what the methods require. */
module LinkedLists {
  import opened Bytes
  import opened Sequences

  class Node<T> {
    var val: T
    var prev: Node?<T>
    var next: Node?<T>

    constructor (val: T, prev: Node?<T>, next: Node?<T>)
      ensures this.val == val && this.prev == prev && this.next == next
    {
      this.val, this.prev, this.next := val, prev, next;
    }
  }

  class LinkedList<T(==)> {
    var first: Node?<T>
    var last: Node?<T>
    var size: int
    ghost var nodes: seq<Node<T>>

    /** The nodes from first to last are pairwise distinct and linked both ways. */
    ghost predicate Valid()
      reads this, nodes
    {
      && size == |nodes|
      && Distinct(nodes)
      && Linked(nodes)
      && (nodes == [] ==> first == null && last == null)
      && (nodes != [] ==>
            && first == nodes[0] && first.prev == null
            && last == nodes[size - 1] && last.next == null)
    }

    static ghost predicate Distinct(ns: seq<Node<T>>) {
      forall i, j :: 0 <= i < j < |ns| ==> ns[i] != ns[j]
    }

    static ghost predicate Linked(ns: seq<Node<T>>)
      reads ns
    {
      forall i, j :: 0 <= i && j == i + 1 && j < |ns| ==> ns[i].next == ns[j] && ns[j].prev == ns[i]
    }

    static ghost function Values(ns: seq<Node<T>>): (s: seq<T>)
      reads ns
      ensures |s| == |ns|
    {
      seq(|ns|, i requires 0 <= i < |ns| reads ns => ns[i].val)
    }

    /** The values in order: what the list stands for. */
    ghost function Contents(): (s: seq<T>)
      reads this, nodes
      ensures |s| == |nodes|
    {
      Values(nodes)
    }

    static twostate lemma SameValues(ns: seq<Node<T>>)
      requires forall m :: m in ns ==> m.val == old(m.val)
      ensures Values(ns) == old(Values(ns))
    {
    }

    static lemma SplicedValues(ns: seq<Node<T>>, index: nat, n: Node<T>)
      requires index <= |ns|
      ensures Values(ns[..index] + [n] + ns[index..]) == Values(ns)[..index] + [n.val] + Values(ns)[index..]
    {
    }

    static lemma CutValues(ns: seq<Node<T>>, i: nat)
      requires i < |ns|
      ensures Values(ns[..i] + ns[i + 1..]) == Values(ns)[..i] + Values(ns)[i + 1..]
    {
    }

    /** Every node is one of ns or was allocated since. */
    twostate predicate OnlyFresh(ns: seq<Node<T>>)
      reads this
    {
      forall k :: 0 <= k < |nodes| ==> nodes[k] in ns || fresh(nodes[k])
    }

    constructor ()
      ensures Valid() && Contents() == [] && nodes == []
    {
      first, last, size, nodes := null, null, 0, [];
    }

    method Add(val: T)
      requires Valid()
      modifies this, nodes
      ensures Valid() && Contents() == old(Contents()) + [val]
      ensures OnlyFresh(old(nodes))
    {
      var n := new Node(val, null, null);
      if last == null {
        first := n;
        last := n;
      } else {
        n.prev := last;
        last.next := n;
        last := n;
      }
      size := size + 1;
      nodes := nodes + [n];
    }

    /** Walks from the nearer end. */
    method Find(index: int) returns (n: Node?<T>)
      requires Valid() && 0 <= index <= size
      ensures n == if index < size then nodes[index] else last
    {
      if index < size / 2 {
        n := first;
        for i := 0 to index
          invariant n == nodes[i]
        {
          assert nodes[i].next == nodes[i + 1];
          n := n.next;
        }
      } else {
        n := last;
        var i := size - 1;
        while i > index
          invariant if index < size then index <= i < size && n == nodes[i] else i == size - 1 && n == last
        {
          assert nodes[i].prev == nodes[i - 1];
          n := n.prev;
          i := i - 1;
        }
      }
    }

    method Get(index: int) returns (val: T)
      requires Valid() && 0 <= index < size
      ensures val == Contents()[index]
    {
      var n := Find(index);
      val := n.val;
    }

    /** An index equal to the size passes the source's check and sets the last element. */
    method Set(index: int, val: T)
      requires Valid() && 0 <= index <= size && size > 0
      modifies nodes
      ensures Valid()
      ensures Contents() == old(Contents())[(if index < size then index else size - 1) := val]
    {
      var n := Find(index);
      n.val := val;
    }

    method Insert(index: int, val: T)
      requires Valid() && 0 <= index <= size
      modifies this, nodes
      ensures Valid() && Contents() == old(Contents())[..index] + [val] + old(Contents())[index..]
      ensures OnlyFresh(old(nodes))
    {
      if index == size {
        Add(val);
        return;
      }
      var pivot := Find(index);
      InsertBefore(pivot, index, val);
    }

    method InsertBefore(pivot: Node<T>, ghost index: int, val: T)
      requires Valid() && 0 <= index < size && pivot == nodes[index]
      modifies this, nodes
      ensures Valid() && Contents() == old(Contents())[..index] + [val] + old(Contents())[index..]
      ensures OnlyFresh(old(nodes))
    {
      hide Values;
      ghost var ns := nodes;
      if index > 0 {
        assert ns[index - 1].next == ns[index];
      }
      var n := new Node(val, pivot.prev, pivot);
      if pivot.prev == null {
        first := n;
      } else {
        pivot.prev.next := n;
      }
      pivot.prev := n;
      size := size + 1;
      nodes := ns[..index] + [n] + ns[index..];
      forall i, j | 0 <= i && j == i + 1 && j < |nodes|
        ensures nodes[i].next == nodes[j] && nodes[j].prev == nodes[i]
      {
        if j < index {
          assert old(ns[i].next == ns[j] && ns[j].prev == ns[i]);
        } else if i > index {
          assert old(ns[i - 1].next == ns[j - 1] && ns[j - 1].prev == ns[i - 1]);
        }
      }
      SameValues(ns);
      SplicedValues(ns, index, n);
    }

    method RemoveNode(n: Node<T>, ghost i: int)
      requires Valid() && 0 <= i < |nodes| && nodes[i] == n
      modifies this, nodes
      ensures Valid() && nodes == old(nodes)[..i] + old(nodes)[i + 1..]
      ensures Contents() == old(Contents())[..i] + old(Contents())[i + 1..]
      ensures n.val == old(n.val)
    {
      hide Values;
      ghost var ns := nodes;
      if i > 0 {
        assert ns[i - 1].next == ns[i];
      }
      if i + 1 < size {
        assert ns[i].next == ns[i + 1];
      }
      if n.prev == null {
        first := n.next;
      } else {
        n.prev.next := n.next;
      }
      if n.next == null {
        last := n.prev;
      } else {
        n.next.prev := n.prev;
      }
      n.prev := null;
      n.next := null;
      size := size - 1;
      nodes := ns[..i] + ns[i + 1..];
      forall a, b | 0 <= a && b == a + 1 && b < |nodes|
        ensures nodes[a].next == nodes[b] && nodes[b].prev == nodes[a]
      {
        if b < i {
          assert old(ns[a].next == ns[b] && ns[b].prev == ns[a]);
        } else if a >= i {
          assert old(ns[a + 1].next == ns[b + 1] && ns[b + 1].prev == ns[a + 1]);
        }
      }
      assert nodes != [] ==> nodes[0] == ns[if i == 0 then 1 else 0];
      assert nodes != [] ==> nodes[size - 1] == ns[if i == size then size - 1 else size];
      CutDistinct(ns, i);
      SameValues(ns);
      CutValues(ns, i);
    }

    static lemma CutDistinct(ns: seq<Node<T>>, i: nat)
      requires i < |ns| && Distinct(ns)
      ensures Distinct(ns[..i] + ns[i + 1..])
    {
    }

    method Remove(index: int) returns (val: T)
      requires Valid() && 0 <= index < size
      modifies this, nodes
      ensures Valid() && OnlyFresh(old(nodes))
      ensures val == old(Contents())[index]
      ensures Contents() == old(Contents())[..index] + old(Contents())[index + 1..]
    {
      var n := Find(index);
      RemoveNode(n, index);
      return n.val;
    }

    method RemoveLast() returns (val: Option<T>)
      requires Valid()
      modifies this, nodes
      ensures Valid() && OnlyFresh(old(nodes))
      ensures if old(Contents()) == [] then val == None && Contents() == []
              else val == Some(old(Contents())[old(size) - 1]) && Contents() == old(Contents())[..old(size) - 1]
    {
      if last == null {
        return None;
      }
      var n := last;
      RemoveNode(n, size - 1);
      return Some(n.val);
    }

    /** The state of a walk from the front: the first i of the original nodes have been seen. */
    ghost predicate Scanned(c: seq<T>, ns: seq<Node<T>>, v: T, i: nat, n: Node?<T>)
      requires |c| == |ns| && i <= |ns|
      reads this, nodes
    {
      && Valid()
      && Contents() == Without(c[..i], v) + c[i..]
      && |nodes| >= |ns| - i && nodes[|nodes| - (|ns| - i)..] == ns[i..]
      && n == if i < |ns| then ns[i] else null
    }

    lemma ScanStarts(v: T)
      requires Valid()
      ensures Scanned(Contents(), nodes, v, 0, first) && Count(Contents()[..0], v) == 0
    {
      hide Linked, Distinct, Values;
      NoneSeen(Contents(), v);
      assert nodes[0..] == nodes;
    }

    lemma ScanAt(c: seq<T>, ns: seq<Node<T>>, v: T, i: nat, n: Node?<T>)
      requires |c| == |ns| && i <= |ns| && Scanned(c, ns, v, i, n)
      ensures Valid() && Contents() == Without(c[..i], v) + c[i..] && (n == null <==> i == |ns|)
    {
      hide Linked, Distinct, Values, Without;
    }

    /** One turn of the forward walk. */
    method Visit(ghost c: seq<T>, ghost ns: seq<Node<T>>, val: T, ghost i: nat, n: Node<T>)
      returns (nextNode: Node?<T>, hit: bool)
      requires |c| == |ns| && i < |ns| && Scanned(c, ns, val, i, n)
      modifies this, nodes
      ensures Scanned(c, ns, val, i + 1, nextNode)
      ensures hit == (c[i] == val)
      ensures forall k :: 0 <= k < |nodes| ==> nodes[k] in old(nodes)
    {
      hide Values, Without, Linked, Distinct;
      ghost var p := |nodes| - (|ns| - i);
      AtWalk(c, ns, val, i, n);
      nextNode := n.next;
      hit := n.val == val;
      if hit {
        RemoveNode(n, p);
      }
      ScanStep(c, val, i);
      TailStep(old(nodes), ns, p, i);
    }

    lemma AtWalk(c: seq<T>, ns: seq<Node<T>>, v: T, i: nat, n: Node<T>)
      requires |c| == |ns| && i < |ns| && Scanned(c, ns, v, i, n)
      ensures var p := |nodes| - (|ns| - i);
              && nodes[p] == n
              && |Without(c[..i], v)| == p
              && n.val == c[i]
              && n.next == if i + 1 < |ns| then ns[i + 1] else null
    {
      var p := |nodes| - (|ns| - i);
      assert nodes[p] == nodes[p..][0];
      assert n.val == Contents()[p] == (Without(c[..i], v) + c[i..])[p];
      if i + 1 < |ns| {
        assert nodes[p + 1] == nodes[p..][1] == ns[i + 1];
        assert nodes[p].next == nodes[p + 1];
      }
    }

    static lemma CountStep(c: seq<T>, v: T, i: nat)
      requires i < |c|
      ensures Count(c[..i + 1], v) == Count(c[..i], v) + (if c[i] == v then 1 else 0)
    {
      assert c[..i + 1][..i] == c[..i];
    }

    static lemma TailStep(a: seq<Node<T>>, ns: seq<Node<T>>, p: nat, i: nat)
      requires p < |a| && i < |ns| && a[p..] == ns[i..]
      ensures a[p + 1..] == ns[i + 1..]
      ensures (a[..p] + a[p + 1..])[p..] == ns[i + 1..]
    {
      assert a[p + 1..] == a[p..][1..] && ns[i + 1..] == ns[i..][1..];
    }

    /** What one turn of the forward walk does to the contents. */
    static lemma ScanStep(c: seq<T>, v: T, i: nat)
      requires i < |c|
      ensures var kept := Without(c[..i], v);
              var s := kept + c[i..];
              Without(c[..i + 1], v) + c[i + 1..] == if c[i] == v then s[..|kept|] + s[|kept| + 1..] else s
    {
      var kept := Without(c[..i], v);
      assert c[..i + 1][..i] == c[..i];
      assert c[i..] == [c[i]] + c[i + 1..];
      assert kept + [] == kept && kept + [c[i]] + c[i + 1..] == kept + c[i..];
      assert (kept + c[i..])[..|kept|] == kept && (kept + c[i..])[|kept| + 1..] == c[i + 1..];
    }

    method RemoveAllByVal(val: T) returns (removed: int)
      requires Valid()
      modifies this, nodes
      ensures Valid() && OnlyFresh(old(nodes))
      ensures Contents() == Without(old(Contents()), val)
      ensures removed == Count(old(Contents()), val)
    {
      hide Valid, Scanned, Contents, Without, Count;
      ghost var c, ns, i := Contents(), nodes, 0;
      var n := first;
      removed := 0;
      ScanStarts(val);
      while n != null
        invariant 0 <= i <= |ns| && Scanned(c, ns, val, i, n)
        invariant removed == Count(c[..i], val)
        invariant forall k :: 0 <= k < |nodes| ==> nodes[k] in ns
        decreases |ns| - i
      {
        ScanAt(c, ns, val, i, n);
        CountStep(c, val, i);
        var nextNode, hit := Visit(c, ns, val, i, n);
        if hit {
          removed := removed + 1;
        }
        n, i := nextNode, i + 1;
      }
      ScanAt(c, ns, val, i, n);
      assert c[..i] == c;
      WithoutAll(c, val);
    }

    /** What RemoveByVal leaves: for a positive count the first count matches go, a negative
        count is never reached, and a count of zero stops the walk unless the first value
        matches. */
    static function FirstRemoved(c: seq<T>, v: T, count: int): seq<T> {
      if count > 0 then DropFirst(c, v, count)
      else if count == 0 && (c == [] || c[0] != v) then c
      else Without(c, v)
    }

    static lemma FirstRemovedAt(c: seq<T>, v: T, count: int, k: nat)
      requires k <= |c|
      requires count > 0 ==> Count(c[..k], v) <= count && (k == |c| || Count(c[..k], v) == count)
      requires count == 0 && c != [] && c[0] != v ==> k == 1
      requires count < 0 || (count == 0 && (c == [] || c[0] == v)) ==> k == |c|
      ensures Without(c[..k], v) + c[k..] == FirstRemoved(c, v, count)
    {
      hide Without;
      if count > 0 {
        DropFirstIs(c, v, count, k);
      } else if count == 0 && c != [] && c[0] != v {
        WithoutNone(c[..1], v);
      } else {
        WithoutAll(c, v);
      }
    }

    static lemma WithoutAll(c: seq<T>, v: T)
      ensures Without(c[..|c|], v) + c[|c|..] == Without(c, v)
      ensures c == [] ==> Without(c, v) == c
    {
      assert c[..|c|] == c && c[|c|..] == [] && Without(c, v) + [] == Without(c, v);
    }

    method RemoveByVal(val: T, count: int) returns (removed: int)
      requires Valid()
      modifies this, nodes
      ensures Valid() && OnlyFresh(old(nodes))
      ensures Contents() == FirstRemoved(old(Contents()), val, count)
      ensures removed == |old(Contents())| - |Contents()|
    {
      hide Linked, Distinct, Values, Without, FirstRemoved;
      ghost var c, ns, i := Contents(), nodes, 0;
      var n := first;
      removed := 0;
      NoneSeen(c, val);
      while n != null
        invariant 0 <= i <= |ns| && Scanned(c, ns, val, i, n)
        invariant removed == Count(c[..i], val)
        invariant count > 0 ==> removed < count
        invariant count == 0 ==> i == 0 || removed > 0
        invariant i > 0 && removed > 0 && count == 0 ==> c[0] == val
        invariant forall k :: 0 <= k < |nodes| ==> nodes[k] in ns
        decreases |ns| - i
      {
        CountStep(c, val, i);
        var nextNode, hit := Visit(c, ns, val, i, n);
        if hit {
          removed := removed + 1;
        }
        n, i := nextNode, i + 1;
        if removed == count {
          break;
        }
      }
      FirstRemovedAt(c, val, count, i);
    }

    static lemma NoneSeen(c: seq<T>, v: T)
      ensures c == Without(c[..0], v) + c[0..] && Count(c[..0], v) == 0
    {
    }

    /** What ReverseRemoveByVal leaves; a negative count is never reached. */
    static function LastRemoved(c: seq<T>, v: T, count: int): seq<T> {
      if count > 0 then DropLast(c, v, count)
      else if count == 0 && (c == [] || c[|c| - 1] != v) then c
      else Without(c, v)
    }

    static lemma LastRemovedAt(c: seq<T>, v: T, count: int, k: nat)
      requires k <= |c|
      requires count > 0 ==> Count(c[k..], v) <= count && (k == 0 || Count(c[k..], v) == count)
      requires count == 0 && c != [] && c[|c| - 1] != v ==> k == |c| - 1
      requires count < 0 || (count == 0 && (c == [] || c[|c| - 1] == v)) ==> k == 0
      ensures c[..k] + Without(c[k..], v) == LastRemoved(c, v, count)
    {
      hide Without;
      if count > 0 {
        DropLastIs(c, v, count, k);
      } else if count == 0 && c != [] && c[|c| - 1] != v {
        WithoutNone(c[|c| - 1..], v);
      } else {
        WithoutAll(c, v);
        assert c[0..] == c[..|c|] == c && c[|c|..] == [] && [] + Without(c, v) == Without(c, v);
      }
    }

    /** The state of a walk from the back: the last |ns| - i nodes have been seen. */
    ghost predicate BackScanned(c: seq<T>, ns: seq<Node<T>>, v: T, i: nat, n: Node?<T>)
      requires |c| == |ns| && i <= |ns|
      reads this, nodes
    {
      && Valid()
      && Contents() == c[..i] + Without(c[i..], v)
      && |nodes| >= i && nodes[..i] == ns[..i]
      && n == if i > 0 then ns[i - 1] else null
    }

    lemma AtBackWalk(c: seq<T>, ns: seq<Node<T>>, v: T, i: nat, n: Node<T>)
      requires |c| == |ns| && 0 < i <= |ns| && BackScanned(c, ns, v, i, n)
      ensures nodes[i - 1] == n && n.val == c[i - 1]
      ensures n.prev == if i > 1 then ns[i - 2] else null
    {
      assert nodes[i - 1] == nodes[..i][i - 1];
      assert n.val == Contents()[i - 1] == (c[..i] + Without(c[i..], v))[i - 1];
      if i > 1 {
        assert nodes[i - 2] == nodes[..i][i - 2] == ns[i - 2];
        assert nodes[i - 1].prev == nodes[i - 2];
      }
    }

    static lemma WithoutBackStep(c: seq<T>, v: T, i: nat)
      requires 0 < i <= |c|
      ensures Without(c[i - 1..], v) == (if c[i - 1] == v then [] else [c[i - 1]]) + Without(c[i..], v)
      ensures Count(c[i - 1..], v) == (if c[i - 1] == v then 1 else 0) + Count(c[i..], v)
    {
      assert c[i - 1..] == [c[i - 1]] + c[i..];
      WithoutConcat([c[i - 1]], c[i..], v);
      CountConcat([c[i - 1]], c[i..], v);
    }

    /** One turn of the backward walk. */
    method BackVisit(ghost c: seq<T>, ghost ns: seq<Node<T>>, val: T, ghost i: nat, n: Node<T>)
      returns (prevNode: Node?<T>, hit: bool)
      requires |c| == |ns| && 0 < i <= |ns| && BackScanned(c, ns, val, i, n)
      modifies this, nodes
      ensures BackScanned(c, ns, val, i - 1, prevNode)
      ensures hit == (c[i - 1] == val)
      ensures forall k :: 0 <= k < |nodes| ==> nodes[k] in old(nodes)
    {
      hide Values, Without, Linked, Distinct;
      AtBackWalk(c, ns, val, i, n);
      prevNode := n.prev;
      hit := n.val == val;
      if hit {
        RemoveNode(n, i - 1);
      }
      WithoutBackStep(c, val, i);
      assert nodes[..i - 1] == ns[..i - 1];
    }

    method ReverseRemoveByVal(val: T, count: int) returns (removed: int)
      requires Valid()
      modifies this, nodes
      ensures Valid() && OnlyFresh(old(nodes))
      ensures Contents() == LastRemoved(old(Contents()), val, count)
      ensures removed == |old(Contents())| - |Contents()|
    {
      hide Linked, Distinct, Values, Without, LastRemoved;
      ghost var c, ns, i := Contents(), nodes, size;
      var n := last;
      removed := 0;
      NoneSeenBack(c, val);
      while n != null
        invariant 0 <= i <= |ns| && BackScanned(c, ns, val, i, n)
        invariant removed == Count(c[i..], val)
        invariant count > 0 ==> removed < count
        invariant count == 0 ==> i == |ns| || removed > 0
        invariant i < |ns| && removed > 0 && count == 0 ==> c[|c| - 1] == val
        invariant forall k :: 0 <= k < |nodes| ==> nodes[k] in ns
        decreases i
      {
        WithoutBackStep(c, val, i);
        var prevNode, hit := BackVisit(c, ns, val, i, n);
        if hit {
          removed := removed + 1;
        }
        n, i := prevNode, i - 1;
        if removed == count {
          break;
        }
      }
      LastRemovedAt(c, val, count, i);
    }

    static lemma NoneSeenBack(c: seq<T>, v: T)
      ensures c == c[..|c|] + Without(c[|c|..], v) && Count(c[|c|..], v) == 0
    {
    }

    function Len(): (n: int)
      requires Valid()
      reads this, nodes
      ensures n == |Contents()|
    {
      size
    }

    /** The values from start up to stop. */
    method Range(start: int, stop: int) returns (slice: seq<T>)
      requires Valid() && 0 <= start < size && start <= stop <= size
      ensures slice == Contents()[start..stop]
    {
      hide Values, Distinct;
      slice := [];
      var n := first;
      var i := 0;
      while n != null
        invariant 0 <= i <= size && n == if i < size then nodes[i] else null
        invariant slice == if i <= start then [] else Contents()[start..if i < stop then i else stop]
        decreases size - i
      {
        ValueAt(i);
        if start <= i < stop {
          slice := slice + [n.val];
        } else if i >= stop {
          break;
        }
        if i + 1 < size {
          assert nodes[i].next == nodes[i + 1];
        }
        i := i + 1;
        n := n.next;
      }
    }

    lemma ValueAt(i: int)
      requires Valid() && 0 <= i < size
      ensures nodes[i].val == Contents()[i]
    {
    }

    /** Contains compares interface values: comparing two of a type that has no comparison, such as
        byte slices, panics. None is such a panic; it comes before val is found, or instead. */
    method Contains(val: T, panics: (T, T) -> bool) returns (contains: Option<bool>)
      requires Valid()
      ensures var c := Contents();
        match contains
        case None => exists i :: 0 <= i < |c| && panics(c[i], val) && val !in c[..i]
        case Some(true) =>
          exists i :: 0 <= i < |c| && c[i] == val && forall j :: 0 <= j <= i ==> !panics(c[j], val)
        case Some(false) => val !in c && forall i :: 0 <= i < |c| ==> !panics(c[i], val)
    {
      hide Values, Distinct;
      var n := first;
      ghost var i := 0;
      while n != null
        invariant 0 <= i <= size && n == if i < size then nodes[i] else null
        invariant val !in Contents()[..i] && forall j :: 0 <= j < i ==> !panics(Contents()[j], val)
        decreases size - i
      {
        ValueAt(i);
        if panics(n.val, val) {
          return None;
        }
        if n.val == val {
          return Some(true);
        }
        if i + 1 < size {
          assert nodes[i].next == nodes[i + 1];
        }
        n, i := n.next, i + 1;
      }
      return Some(false);
    }

    static method Make(vals: seq<T>) returns (list: LinkedList<T>)
      ensures fresh(list) && fresh(list.nodes) && list.Valid() && list.Contents() == vals
    {
      list := new LinkedList();
      for i := 0 to |vals|
        invariant fresh(list) && (forall k :: 0 <= k < |list.nodes| ==> fresh(list.nodes[k]))
        invariant list.Valid() && list.Contents() == vals[..i]
      {
        list.Add(vals[i]);
      }
    }
  }
}
