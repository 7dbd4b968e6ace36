/** The sharded dictionary used by one goroutine at a time. */
module ConcurrentDict {
  import opened Bytes
  import Capacity

  function Wrap32(n: int): int {
    (n + 0x8000_0000) % 0x1_0000_0000 - 0x8000_0000
  }

  lemma WrapStep(n: int)
    ensures Wrap32(Wrap32(n) + 1) == Wrap32(n + 1) && Wrap32(Wrap32(n) - 1) == Wrap32(n - 1)
    ensures 0 <= n < 0x8000_0000 ==> Wrap32(n) == n
  {
  }

  /** The counter is the size, or it is at least two behind. */
  lemma CountIsSize(n: nat)
    ensures Wrap32(n) == n || Wrap32(n) + 1 < n
    ensures 0 <= Wrap32(n) == n ==> n < 0x8000_0000
  {
  }

  type Hash = Bytes -> nat

  function ShardOf(hash: Hash, size: nat, key: Bytes): nat {
    Capacity.Spread(size, hash(key))
  }

  /** On a table of 2^k shards, up to 2^32, a key lives in the shard that its hash leaves as a remainder. */
  lemma ShardIsRemainder(hash: Hash, k: nat, key: Bytes)
    requires Capacity.Pow2(k) <= 0x1_0000_0000
    ensures ShardOf(hash, Capacity.Pow2(k), key) == hash(key) % Capacity.Pow2(k)
  {
    hide Capacity.Pow2, Capacity.Spread;
    Capacity.SpreadIsModulo(Capacity.Pow2(k), hash(key));
  }

  /** The shards hold exactly the entries of a map, each key in its own shard. */
  ghost predicate Stored<V>(hash: Hash, c: map<Bytes, V>, shards: seq<map<Bytes, V>>) {
    && (forall key :: ShardOf(hash, |shards|, key) < |shards|)
    && (forall i, key :: 0 <= i < |shards| && key in shards[i] ==> ShardOf(hash, |shards|, key) == i)
    && (forall key :: key in c <==> key in shards[ShardOf(hash, |shards|, key)])
    && (forall key :: key in c ==> c[key] == shards[ShardOf(hash, |shards|, key)][key])
  }

  lemma StoredAt<V>(hash: Hash, c: map<Bytes, V>, shards: seq<map<Bytes, V>>, key: Bytes)
    requires Stored(hash, c, shards)
    ensures var i := ShardOf(hash, |shards|, key);
            i < |shards| && (key in c <==> key in shards[i]) && (key in c ==> c[key] == shards[i][key])
  {
  }

  /** Replacing one shard: what the other shards hold does not change. */
  lemma StoredReplace<V>(hash: Hash, c: map<Bytes, V>, shards: seq<map<Bytes, V>>, i: nat, c': map<Bytes, V>,
                         shard: map<Bytes, V>)
    requires Stored(hash, c, shards) && i < |shards|
    requires forall key :: key in shard ==> ShardOf(hash, |shards|, key) == i
    requires forall key :: ShardOf(hash, |shards|, key) == i ==>
      (key in c' <==> key in shard) && (key in c' ==> c'[key] == shard[key])
    requires forall key :: ShardOf(hash, |shards|, key) != i ==>
      (key in c' <==> key in c) && (key in c' ==> c'[key] == c[key])
    ensures Stored(hash, c', shards[i := shard])
  {
    hide ShardOf;
  }

  /** The part of the dictionary that one shard holds. */
  lemma StoredShard<V>(hash: Hash, c: map<Bytes, V>, shards: seq<map<Bytes, V>>, i: nat)
    requires Stored(hash, c, shards) && i < |shards|
    ensures forall key :: key in shards[i] ==> ShardOf(hash, |shards|, key) == i
    ensures forall key :: ShardOf(hash, |shards|, key) == i ==>
      (key in c <==> key in shards[i]) && (key in c ==> c[key] == shards[i][key])
  {
    hide ShardOf;
  }

  lemma StoredPut<V>(hash: Hash, c: map<Bytes, V>, shards: seq<map<Bytes, V>>, key: Bytes, val: V)
    requires Stored(hash, c, shards)
    ensures var i := ShardOf(hash, |shards|, key);
            i < |shards| && Stored(hash, c[key := val], shards[i := shards[i][key := val]])
  {
    hide ShardOf, Stored;
    StoredAt(hash, c, shards, key);
    var i := ShardOf(hash, |shards|, key);
    StoredShard(hash, c, shards, i);
    StoredReplace(hash, c, shards, i, c[key := val], shards[i][key := val]);
  }

  lemma StoredRemove<V>(hash: Hash, c: map<Bytes, V>, shards: seq<map<Bytes, V>>, key: Bytes)
    requires Stored(hash, c, shards)
    ensures var i := ShardOf(hash, |shards|, key);
            i < |shards| && Stored(hash, c - {key}, shards[i := shards[i] - {key}])
  {
    hide ShardOf, Stored;
    StoredAt(hash, c, shards, key);
    var i := ShardOf(hash, |shards|, key);
    StoredShard(hash, c, shards, i);
    StoredReplace(hash, c, shards, i, c - {key}, shards[i] - {key});
  }

  lemma PutSize<V>(c: map<Bytes, V>, key: Bytes, val: V)
    ensures |c[key := val]| == |c| + if key in c then 0 else 1
  {
    assert c[key := val].Keys == c.Keys + {key};
  }

  lemma RemoveSize<V>(c: map<Bytes, V>, key: Bytes)
    ensures |c - {key}| == |c| - if key in c then 1 else 0
    ensures key !in c ==> c - {key} == c
  {
    if key in c {
      assert c.Keys == (c - {key}).Keys + {key};
    } else {
      assert c - {key} == c;
    }
  }

  lemma StoredNothing<V>(hash: Hash, size: nat)
    requires size > 0
    ensures Stored(hash, map[], seq<map<Bytes, V>>(size, _ => map[]))
  {
    hide Capacity.Spread;
    forall key ensures ShardOf(hash, size, key) < size {
      Capacity.SpreadInside(size, hash(key));
    }
  }

  /** The slice made for n keys, with i of them filled in turn, after the keys of seen: while there
      is room the keys are listed once each; after that, each key appended is overwritten by the
      next one. */
  ghost predicate Listing(keys: seq<Bytes>, n: nat, i: nat, seen: set<Bytes>) {
    if |seen| <= n then
      && |keys| == n && i == |seen|
      && (forall k :: 0 <= k < i ==> keys[k] in seen)
      && (forall key :: key in seen ==> key in keys[..i])
      && (forall a, b :: 0 <= a < b < i ==> keys[a] != keys[b])
    else
      |keys| == n + (|seen| - n + 1) / 2 && i == n + (|seen| - n) / 2
  }

  lemma ListNothing(keys: seq<Bytes>)
    ensures Listing(keys, |keys|, 0, {})
  {
  }

  lemma ListNext(keys: seq<Bytes>, n: nat, i: nat, seen: set<Bytes>, key: Bytes)
    requires Listing(keys, n, i, seen) && key !in seen
    ensures i < |keys| ==> Listing(keys[i := key], n, i + 1, seen + {key})
    ensures i >= |keys| ==> i == |keys| && Listing(keys + [key], n, i, seen + {key})
  {
    var seen' := seen + {key};
    assert |seen'| == |seen| + 1;
    if |seen| < n {
      assert keys[i := key][..i + 1] == keys[..i] + [key];
      forall k | k in seen' ensures k in keys[i := key][..i + 1] {
      }
    }
  }

  lemma ListedAll(keys: seq<Bytes>, n: nat, i: nat, seen: set<Bytes>)
    requires Listing(keys, n, i, seen)
    ensures |seen| == n ==>
      && |keys| == |seen|
      && (forall key :: key in keys <==> key in seen)
      && forall a, b :: 0 <= a < b < |keys| ==> keys[a] != keys[b]
    ensures |seen| > n + 1 ==> exists key :: key in seen && key !in keys
  {
    if |seen| == n {
      assert keys[..i] == keys;
    }
    if |seen| > n + 1 && forall key :: key in seen ==> key in keys {
      FewKeys(keys, seen);
      assert false;
    }
  }

  /** A slice holds no more keys than its length. */
  lemma {:induction false} FewKeys(keys: seq<Bytes>, seen: set<Bytes>)
    requires forall key :: key in seen ==> key in keys
    ensures |seen| <= |keys|
    decreases keys
  {
    if keys == [] {
      assert seen == {};
    } else {
      FewKeys(keys[1..], seen - {keys[0]});
      assert seen <= (seen - {keys[0]}) + {keys[0]};
      SubsetSize(seen, (seen - {keys[0]}) + {keys[0]});
    }
  }

  /** seen holds the stored keys of the first s shards, the last one's rest excepted. */
  ghost predicate Visited<V>(hash: Hash, c: map<Bytes, V>, size: nat, s: nat, rest: set<Bytes>, seen: set<Bytes>) {
    && seen <= c.Keys
    && forall key :: key in c ==> (key in seen <==> ShardOf(hash, size, key) < s && key !in rest)
  }

  lemma VisitedNothing<V>(hash: Hash, c: map<Bytes, V>, shards: seq<map<Bytes, V>>)
    ensures Visited(hash, c, |shards|, 0, {}, {})
  {
    hide ShardOf;
  }

  lemma EnterShard<V>(hash: Hash, c: map<Bytes, V>, shards: seq<map<Bytes, V>>, s: nat, seen: set<Bytes>)
    requires Stored(hash, c, shards) && s < |shards| && Visited(hash, c, |shards|, s, {}, seen)
    ensures Visited(hash, c, |shards|, s + 1, shards[s].Keys, seen)
  {
    hide ShardOf, Stored;
    StoredShard(hash, c, shards, s);
  }

  lemma VisitNext<V>(hash: Hash, c: map<Bytes, V>, shards: seq<map<Bytes, V>>, s: nat, rest: set<Bytes>,
                     seen: set<Bytes>, key: Bytes)
    requires Stored(hash, c, shards) && s < |shards| && rest <= shards[s].Keys && key in rest
    requires Visited(hash, c, |shards|, s + 1, rest, seen)
    ensures seen <= c.Keys && key in c && key !in seen
    ensures Visited(hash, c, |shards|, s + 1, rest - {key}, seen + {key})
  {
    hide ShardOf, Stored;
    StoredShard(hash, c, shards, s);
  }

  lemma VisitedAll<V>(hash: Hash, c: map<Bytes, V>, shards: seq<map<Bytes, V>>, seen: set<Bytes>)
    requires Stored(hash, c, shards) && Visited(hash, c, |shards|, |shards|, {}, seen)
    ensures seen == c.Keys
  {
    hide ShardOf, Stored;
    forall key | key in c ensures key in seen {
      StoredAt(hash, c, shards, key);
    }
  }

  class ConcurrentDict<V> {
    const hash: Hash
    var table: array<map<Bytes, V>>
    var count: int
    var shardCount: int
    ghost var contents: map<Bytes, V>

    ghost predicate Valid()
      reads this, table
    {
      && shardCount == table.Length && 16 <= table.Length <= Capacity.MAX_TABLE
      && Stored(hash, contents, table[..])
      && count == Wrap32(|contents|)
    }

    /** MakeConcurrent, for every argument for which it does not panic. */
    constructor (fn: Hash, param: int)
      requires Capacity.CanMake(param)
      ensures Valid() && fresh(table) && hash == fn && contents == map[]
      ensures table.Length == Capacity.CapacityOf(param)
    {
      hide Stored, Capacity.CapacityOf;
      hash := fn;
      var n := Capacity.ComputeCapacity(param);
      Capacity.SizeRange(param);
      StoredNothing<V>(fn, n);
      table := new map<Bytes, V>[n](_ => map[]);
      count, shardCount, contents := 0, n, map[];
      new;
      assert table[..] == seq<map<Bytes, V>>(n, _ => map[]);
    }

    method Get(key: Bytes) returns (val: Option<V>)
      requires Valid()
      ensures val == if key in contents then Some(contents[key]) else None
    {
      hide Stored, ShardOf, Capacity.CapacityOf;
      StoredAt(hash, contents, table[..], key);
      var shard := table[ShardOf(hash, table.Length, key)];
      return if key in shard then Some(shard[key]) else None;
    }

    method Len() returns (n: int)
      requires Valid()
      ensures n == Wrap32(|contents|) && (|contents| < 0x8000_0000 ==> n == |contents|)
    {
      hide Stored, ShardOf, Capacity.CapacityOf, Wrap32;
      WrapStep(|contents|);
      return count;
    }

    method Put(key: Bytes, val: V) returns (result: int)
      requires Valid()
      modifies this, table
      ensures Valid() && table == old(table) && contents == old(contents)[key := val]
      ensures result == if key in old(contents) then 0 else 1
    {
      hide Stored, ShardOf, Capacity.CapacityOf, Wrap32;
      StoredAt(hash, contents, table[..], key);
      StoredPut(hash, contents, table[..], key, val);
      PutSize(contents, key, val);
      WrapStep(|contents|);
      var index := ShardOf(hash, table.Length, key);
      contents := contents[key := val];
      if key in table[index] {
        table[index] := table[index][key := val];
        return 0;
      }
      table[index] := table[index][key := val];
      count := Wrap32(count + 1);
      return 1;
    }

    method PutIfAbsent(key: Bytes, val: V) returns (result: int)
      requires Valid()
      modifies this, table
      ensures Valid() && table == old(table)
      ensures contents == if key in old(contents) then old(contents) else old(contents)[key := val]
      ensures result == if key in old(contents) then 0 else 1
    {
      hide Stored, ShardOf, Capacity.CapacityOf, Wrap32;
      StoredAt(hash, contents, table[..], key);
      StoredPut(hash, contents, table[..], key, val);
      PutSize(contents, key, val);
      WrapStep(|contents|);
      var index := ShardOf(hash, table.Length, key);
      if key in table[index] {
        return 0;
      }
      contents := contents[key := val];
      table[index] := table[index][key := val];
      count := Wrap32(count + 1);
      return 1;
    }

    method PutIfExists(key: Bytes, val: V) returns (result: int)
      requires Valid()
      modifies this, table
      ensures Valid() && table == old(table)
      ensures contents == if key in old(contents) then old(contents)[key := val] else old(contents)
      ensures result == if key in old(contents) then 1 else 0
    {
      hide Stored, ShardOf, Capacity.CapacityOf, Wrap32;
      StoredAt(hash, contents, table[..], key);
      StoredPut(hash, contents, table[..], key, val);
      PutSize(contents, key, val);
      var index := ShardOf(hash, table.Length, key);
      if key in table[index] {
        contents := contents[key := val];
        table[index] := table[index][key := val];
        return 1;
      }
      return 0;
    }

    method Remove(key: Bytes) returns (result: int)
      requires Valid()
      modifies this, table
      ensures Valid() && table == old(table) && contents == old(contents) - {key}
      ensures result == if key in old(contents) then 1 else 0
    {
      hide Stored, ShardOf, Capacity.CapacityOf, Wrap32;
      StoredAt(hash, contents, table[..], key);
      StoredRemove(hash, contents, table[..], key);
      RemoveSize(contents, key);
      WrapStep(|contents|);
      var index := ShardOf(hash, table.Length, key);
      if key in table[index] {
        contents := contents - {key};
        table[index] := table[index] - {key};
        count := Wrap32(count - 1);
        return 1;
      }
      return 0;
    }

    /** Keys: ForEach visits the shards in order and each shard's map in any order; the slice made
        for the current count is filled and, if need be, extended. It lists every key exactly once
        if there are fewer than 2^31; once the counter has wrapped round, it panics or misses some. */
    method Keys() returns (keys: seq<Bytes>)
      requires Valid() && Wrap32(|contents|) >= 0
      ensures |contents| < 0x8000_0000 ==>
        && |keys| == |contents|
        && (forall key :: key in keys <==> key in contents)
        && forall i, j :: 0 <= i < j < |keys| ==> keys[i] != keys[j]
      ensures |contents| >= 0x8000_0000 ==> exists key :: key in contents && key !in keys
    {
      CountIsSize(|contents|);
      hide Stored, ShardOf, Capacity.CapacityOf, Wrap32, Listing, Visited;
      var n: nat := Len();
      keys := seq(n, _ => []);
      var i := 0;
      ghost var seen: set<Bytes> := {};
      VisitedNothing(hash, contents, table[..]);
      ListNothing(keys);
      for s := 0 to table.Length
        invariant i >= 0 && Listing(keys, n, i, seen)
        invariant Visited(hash, contents, table.Length, s, {}, seen)
      {
        keys, i, seen := ListShard(s, keys, i, n, seen);
      }
      VisitedAll(hash, contents, table[..], seen);
      ListedAll(keys, n, i, seen);
    }

    /** The part of ForEach that visits one shard. */
    method ListShard(s: nat, keys: seq<Bytes>, i: nat, ghost n: nat, ghost seen: set<Bytes>)
      returns (keys': seq<Bytes>, i': nat, ghost seen': set<Bytes>)
      requires Valid() && s < table.Length && Listing(keys, n, i, seen) &&
               Visited(hash, contents, table.Length, s, {}, seen)
      ensures Listing(keys', n, i', seen') && Visited(hash, contents, table.Length, s + 1, {}, seen')
    {
      hide Stored, ShardOf, Capacity.CapacityOf, Wrap32, Listing, Visited;
      keys', i', seen' := keys, i, seen;
      var rest := table[s].Keys;
      EnterShard(hash, contents, table[..], s, seen);
      while rest != {}
        invariant rest <= table[s].Keys && Listing(keys', n, i', seen')
        invariant Visited(hash, contents, table.Length, s + 1, rest, seen')
        decreases rest
      {
        var key :| key in rest;
        VisitNext(hash, contents, table[..], s, rest, seen', key);
        ListNext(keys', n, i', seen', key);
        if i' < |keys'| {
          keys' := keys'[i' := key];
          i' := i' + 1;
        } else {
          keys' := keys' + [key];
        }
        seen' := seen' + {key};
        rest := rest - {key};
      }
    }

    /** Clear replaces the whole dictionary by a new one for the old number of shards. */
    method Clear()
      requires Valid()
      modifies this
      ensures Valid() && fresh(table) && contents == map[]
      ensures table.Length == Capacity.CapacityOf(old(table.Length))
    {
      hide Stored, Capacity.CapacityOf;
      Capacity.SizeRange(shardCount);
      var d := new ConcurrentDict<V>(hash, shardCount);
      table, count, shardCount, contents := d.table, d.count, d.shardCount, map[];
    }
  }

  lemma {:induction false} SubsetSize(a: set<Bytes>, b: set<Bytes>)
    requires a <= b
    ensures |a| <= |b|
    decreases a
  {
    if a != {} {
      var x :| x in a;
      SubsetSize(a - {x}, b - {x});
    }
  }
}
