/** What the calls of a sharded dictionary are answered (datastruct/dict/sync_dict_concurrenthashmap.go),
    told from the calls alone: which of them have bound a key, and which have unbound it. */
module DictHistories {
  import opened Bytes
  import opened ConcurrentDict
  import opened DictThreads
  import Capacity

  /** The call has bound the key: any Put, and the other two exactly if they answered 1. */
  predicate Binds<V>(e: Event<V>, key: Bytes) {
    && e.TookEffect? && e.op.key == key
    && match e.op
       case Put(_, _) => true
       case PutIfAbsent(_, _) | PutIfExists(_, _) => e.res == Changed(1)
       case _ => false
  }

  predicate Unbinds<V>(e: Event<V>, key: Bytes) {
    e.TookEffect? && e.op == Remove(key) && e.res == Changed(1)
  }

  /** The last call among the first n that has bound the key has bound it to this value, and none
      has unbound it since. */
  ghost predicate BoundTo<V(!new)>(events: seq<Event<V>>, n: nat, key: Bytes, v: V)
    requires n <= |events|
  {
    exists j :: 0 <= j < n && Binds(events[j], key) && events[j].op.val == v
      && forall i :: j < i < n ==> !Binds(events[i], key) && !Unbinds(events[i], key)
  }

  ghost predicate Unbound<V(!new)>(events: seq<Event<V>>, n: nat, key: Bytes)
    requires n <= |events|
  {
    forall j :: 0 <= j < n && Binds(events[j], key) ==> exists i :: j < i < n && Unbinds(events[i], key)
  }

  /** The answer of a call that takes effect next. */
  ghost predicate Right<V(!new)>(events: seq<Event<V>>, k: nat)
    requires k < |events| && events[k].TookEffect?
  {
    var op, res := events[k].op, events[k].res;
    var free := Unbound(events, k, op.key);
    match op
    case Get(key) =>
      && res.Value? && (res.val == None <==> free)
      && (res.val.Some? ==> BoundTo(events, k, key, res.val.value))
    case Put(_, _) | PutIfAbsent(_, _) => res == Changed(if free then 1 else 0)
    case PutIfExists(_, _) | Remove(_) => res == Changed(if free then 0 else 1)
  }

  // ---- one event

  lemma QuietEvent<V(!new)>(events: seq<Event<V>>, n: nat, next: nat, key: Bytes)
    requires next == n + 1 <= |events| && !Binds(events[n], key) && !Unbinds(events[n], key)
    ensures forall v :: BoundTo(events, next, key, v) <==> BoundTo(events, n, key, v)
    ensures Unbound(events, next, key) <==> Unbound(events, n, key)
  {
    hide Binds, Unbinds;
    if Unbound(events, n, key) {
      forall j | 0 <= j < next && Binds(events[j], key) ensures exists i :: j < i < next && Unbinds(events[i], key) {
        var i :| j < i < n && Unbinds(events[i], key);
      }
    }
  }

  lemma BindingEvent<V(!new)>(events: seq<Event<V>>, n: nat, next: nat, key: Bytes)
    requires next == n + 1 <= |events| && Binds(events[n], key)
    ensures forall v :: BoundTo(events, next, key, v) <==> v == events[n].op.val
    ensures !Unbound(events, next, key)
  {
  }

  lemma UnbindingEvent<V(!new)>(events: seq<Event<V>>, n: nat, next: nat, key: Bytes)
    requires next == n + 1 <= |events| && Unbinds(events[n], key)
    ensures forall v :: !BoundTo(events, next, key, v)
    ensures Unbound(events, next, key)
  {
  }

  ghost predicate Tells<V(!new)>(events: seq<Event<V>>, n: nat, key: Bytes, m: map<Bytes, V>)
    requires n <= |events|
  {
    && (forall v :: BoundTo(events, n, key, v) <==> key in m && m[key] == v)
    && (Unbound(events, n, key) <==> key !in m)
  }

  lemma NextTells<V(!new)>(events: seq<Event<V>>, n: nat, key: Bytes, m: map<Bytes, V>)
    requires n < |events| && Tells(events, n, key, m)
    requires events[n].TookEffect? ==> events[n].res == OnMap(m, events[n].op).1
    ensures Tells(events, n + 1, key, if events[n].TookEffect? then OnMap(m, events[n].op).0 else m)
  {
    hide BoundTo, Unbound;
    if Binds(events[n], key) {
      BindingEvent(events, n, n + 1, key);
    } else if Unbinds(events[n], key) {
      UnbindingEvent(events, n, n + 1, key);
    } else {
      QuietEvent(events, n, n + 1, key);
    }
  }

  // ---- histories

  /** In a history that a sequential map explains, the calls tell what the map holds. */
  lemma {:induction false} HistoryTells<V(!new)>(events: seq<Event<V>>, n: nat, key: Bytes)
    requires n <= |events| && Sequential(events)
    ensures Tells(events, n, key, MapAfter(events[..n]))
  {
    hide Tells, OnMap;
    if n == 0 {
      NothingTold(events, key);
    } else {
      HistoryTells(events, n - 1, key);
      NextTells(events, n - 1, key, MapAfter(events[..n - 1]));
      assert events[..n] == events[..n - 1] + [events[n - 1]];
      MapAfterNext(events[..n - 1], events[n - 1]);
    }
  }

  lemma NothingTold<V(!new)>(events: seq<Event<V>>, key: Bytes)
    ensures Tells(events, 0, key, MapAfter(events[..0]))
  {
  }

  lemma OneRight<V(!new)>(events: seq<Event<V>>, k: nat, m: map<Bytes, V>)
    requires k < |events| && events[k].TookEffect? && Tells(events, k, events[k].op.key, m)
    requires events[k].res == OnMap(m, events[k].op).1
    ensures Right(events, k)
  {
    hide BoundTo, Unbound;
  }

  /** For every interleaving of any number of goroutines: a Get answers the value of the last call
      before it that has bound its key, unless the key has been unbound since, and nothing if there is
      none; each 0 or 1 says whether the key was bound; and that is also what the shards hold. */
  lemma AnswersTell<V(!new)>(c: Config, steps: seq<Step<V>>)
    requires Capacity.CanMake(c.param) && RunSteps(c, steps).Some?
    ensures var s := RunSteps(c, steps).value;
      && (forall k :: 0 <= k < |s.events| && s.events[k].TookEffect? ==> Right(s.events, k))
      && forall key ::
           var i := ShardOf(c.hash, |s.shards|, key);
           && i < |s.shards|
           && (Unbound(s.events, |s.events|, key) <==> key !in s.shards[i])
           && forall v :: BoundTo(s.events, |s.events|, key, v) <==> key in s.shards[i] && s.shards[i][key] == v
  {
    hide RunSteps, Stored, Explained, Right, BoundTo, Unbound, OnMap, ShardOf, MapAfter;
    Linearizable(c, steps);
    var s := RunSteps(c, steps).value;
    forall k | 0 <= k < |s.events| && s.events[k].TookEffect? ensures Right(s.events, k) {
      HistoryTells(s.events, k, s.events[k].op.key);
      OneRight(s.events, k, MapAfter(s.events[..k]));
    }
    forall key
      ensures var i := ShardOf(c.hash, |s.shards|, key);
        && i < |s.shards|
        && (Unbound(s.events, |s.events|, key) <==> key !in s.shards[i])
        && forall v :: BoundTo(s.events, |s.events|, key, v) <==> key in s.shards[i] && s.shards[i][key] == v
    {
      HistoryTells(s.events, |s.events|, key);
      assert s.events[..|s.events|] == s.events;
      StoredAt(c.hash, MapAfter(s.events), s.shards, key);
    }
  }
}
