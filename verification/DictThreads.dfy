/** The sharded dictionary used by any number of goroutines at once
    (datastruct/dict/sync_dict_concurrenthashmap.go), as interleaved steps: a call is made, takes
    its shard's lock, looks its key up, acts on what it found, adjusts the counter, releases the
    lock and returns. */
module DictThreads {
  import opened Bytes
  import opened ConcurrentDict
  import Capacity

  datatype Op<V> =
    | Get(key: Bytes)
    | Put(key: Bytes, val: V)
    | PutIfAbsent(key: Bytes, val: V)
    | PutIfExists(key: Bytes, val: V)
    | Remove(key: Bytes)

  datatype Outcome<V> = Value(val: Option<V>) | Changed(n: int)

  /** Where a goroutine stands. */
  datatype Phase<V> =
    | Idle
    | Waiting(op: Op<V>)
    | Locked(op: Op<V>)
    | Looked(op: Op<V>, found: Option<V>)
    | Counting(op: Op<V>, delta: int, res: Outcome<V>)
    | Unlocking(op: Op<V>, res: Outcome<V>)
    | Returning(op: Op<V>, res: Outcome<V>)

  datatype RWMutex = RWMutex(readers: set<nat>, writer: Option<nat>)

  /** What happens to calls, in order: an operation is called, takes effect, and returns. */
  datatype Event<V> =
    | Called(t: nat, op: Op<V>)
    | TookEffect(t: nat, op: Op<V>, res: Outcome<V>)
    | Returned(t: nat, res: Outcome<V>)

  datatype State<V> = State(
    shards: seq<map<Bytes, V>>, locks: seq<RWMutex>, count: int, threads: seq<Phase<V>>, events: seq<Event<V>>)

  datatype Config = Config(hash: Hash, param: int, threads: nat)

  datatype Step<V> =
    | Call(t: nat, op: Op<V>)
    | Lock(t: nat)
    | Lookup(t: nat)
    | Act(t: nat)
    | Adjust(t: nat)
    | Unlock(t: nat)
    | Return(t: nat)

  function Initial<V>(c: Config): State<V>
    requires Capacity.CanMake(c.param)
  {
    var size: nat := Capacity.CapacityOf(c.param);
    State(seq(size, _ => map[]), seq(size, _ => RWMutex({}, None)), 0, seq(c.threads, _ => Idle), [])
  }

  // ---- what each operation does between lock and unlock

  function Find<V>(shard: map<Bytes, V>, key: Bytes): Option<V> {
    if key in shard then Some(shard[key]) else None
  }

  function NewShard<V>(op: Op<V>, found: Option<V>, shard: map<Bytes, V>): map<Bytes, V> {
    match op
    case Get(_) => shard
    case Put(key, val) => shard[key := val]
    case PutIfAbsent(key, val) => if found.Some? then shard else shard[key := val]
    case PutIfExists(key, val) => if found.Some? then shard[key := val] else shard
    case Remove(key) => if found.Some? then shard - {key} else shard
  }

  function OutcomeOf<V>(op: Op<V>, found: Option<V>): Outcome<V> {
    match op
    case Get(_) => Value(found)
    case Put(_, _) | PutIfAbsent(_, _) => Changed(if found.Some? then 0 else 1)
    case PutIfExists(_, _) | Remove(_) => Changed(if found.Some? then 1 else 0)
  }

  /** The call of addCount or decreaseCount that an operation makes, if any. */
  function DeltaOf<V>(op: Op<V>, found: Option<V>): int {
    match op
    case Put(_, _) | PutIfAbsent(_, _) => if found.Some? then 0 else 1
    case Remove(_) => if found.Some? then -1 else 0
    case _ => 0
  }

  // ---- steps

  function At<V>(c: Config, s: State<V>, op: Op<V>): nat {
    ShardOf(c.hash, |s.shards|, op.key)
  }

  predicate HasLock<V>(p: Phase<V>) {
    p.Locked? || p.Looked? || p.Counting? || p.Unlocking?
  }

  predicate Free<V>(m: RWMutex, op: Op<V>) {
    m.writer == None && (op.Get? || m.readers == {})
  }

  function Acquire<V>(m: RWMutex, op: Op<V>, t: nat): RWMutex {
    if op.Get? then m.(readers := m.readers + {t}) else m.(writer := Some(t))
  }

  function Release<V>(m: RWMutex, op: Op<V>, t: nat): RWMutex {
    if op.Get? then m.(readers := m.readers - {t}) else m.(writer := None)
  }

  predicate Enabled<V>(c: Config, s: State<V>, step: Step<V>) {
    && step.t < |s.threads|
    && var p := s.threads[step.t];
       match step
       case Call(_, _) => p.Idle?
       case Lock(_) =>
         p.Waiting? && At(c, s, p.op) < |s.shards| && At(c, s, p.op) < |s.locks| && Free(s.locks[At(c, s, p.op)], p.op)
       case Lookup(_) => p.Locked? && At(c, s, p.op) < |s.shards|
       case Act(_) => p.Looked? && At(c, s, p.op) < |s.shards|
       case Adjust(_) => p.Counting?
       case Unlock(_) => p.Unlocking? && At(c, s, p.op) < |s.locks|
       case Return(_) => p.Returning?
  }

  function Apply<V>(c: Config, s: State<V>, step: Step<V>): State<V>
    requires Enabled(c, s, step)
  {
    var t, p := step.t, s.threads[step.t];
    match step
    case Call(_, op) => s.(threads := s.threads[t := Waiting(op)], events := s.events + [Called(t, op)])
    case Lock(_) =>
      var i := At(c, s, p.op);
      s.(threads := s.threads[t := Locked(p.op)], locks := s.locks[i := Acquire(s.locks[i], p.op, t)])
    case Lookup(_) =>
      s.(threads := s.threads[t := Looked(p.op, Find(s.shards[At(c, s, p.op)], p.op.key))])
    case Act(_) =>
      var i := At(c, s, p.op);
      var res, delta := OutcomeOf(p.op, p.found), DeltaOf(p.op, p.found);
      s.(shards := s.shards[i := NewShard(p.op, p.found, s.shards[i])],
         threads := s.threads[t := if delta == 0 then Unlocking(p.op, res) else Counting(p.op, delta, res)],
         events := s.events + [TookEffect(t, p.op, res)])
    case Adjust(_) =>
      s.(threads := s.threads[t := Unlocking(p.op, p.res)], count := Wrap32(s.count + p.delta))
    case Unlock(_) =>
      var i := At(c, s, p.op);
      s.(threads := s.threads[t := Returning(p.op, p.res)], locks := s.locks[i := Release(s.locks[i], p.op, t)])
    case Return(_) =>
      s.(threads := s.threads[t := Idle], events := s.events + [Returned(t, p.res)])
  }

  function RunSteps<V>(c: Config, steps: seq<Step<V>>): Option<State<V>>
    requires Capacity.CanMake(c.param)
  {
    if steps == [] then Some(Initial(c))
    else
      var before := RunSteps(c, steps[..|steps| - 1]);
      var step := steps[|steps| - 1];
      if before.Some? && Enabled(c, before.value, step) then Some(Apply(c, before.value, step)) else None
  }

  // ---- the sequential map, and histories

  /** One operation on one map. */
  function OnMap<V>(m: map<Bytes, V>, op: Op<V>): (map<Bytes, V>, Outcome<V>) {
    match op
    case Get(key) => (m, Value(if key in m then Some(m[key]) else None))
    case Put(key, val) => (m[key := val], Changed(if key in m then 0 else 1))
    case PutIfAbsent(key, val) => if key in m then (m, Changed(0)) else (m[key := val], Changed(1))
    case PutIfExists(key, val) => if key in m then (m[key := val], Changed(1)) else (m, Changed(0))
    case Remove(key) => if key in m then (m - {key}, Changed(1)) else (m, Changed(0))
  }

  /** The map after the operations that took effect, one after the other. */
  function MapAfter<V>(events: seq<Event<V>>): map<Bytes, V> {
    if events == [] then map[]
    else
      var m := MapAfter(events[..|events| - 1]);
      var e := events[|events| - 1];
      if e.TookEffect? then OnMap(m, e.op).0 else m
  }

  /** Each operation that took effect has the outcome that the one map gives at that point. */
  ghost predicate Sequential<V>(events: seq<Event<V>>) {
    forall k :: 0 <= k < |events| && events[k].TookEffect? ==>
      events[k].res == OnMap(MapAfter(events[..k]), events[k].op).1
  }

  /** What a history says about one goroutine: it has no call open, one that has not taken effect,
      or one that has; or its events come in an impossible order. */
  datatype Life<V> = Quiet | Open(op: Op<V>) | Decided(op: Op<V>, res: Outcome<V>) | Broken

  ghost function LifeAfter<V>(events: seq<Event<V>>, t: nat): Life<V> {
    if events == [] then Quiet
    else
      var before := LifeAfter(events[..|events| - 1], t);
      var e := events[|events| - 1];
      if e.t != t then before
      else
        match e
        case Called(_, op) => if before.Quiet? then Open(op) else Broken
        case TookEffect(_, op, res) => if before == Open(op) then Decided(op, res) else Broken
        case Returned(_, res) => if before.Decided? && before.res == res then Quiet else Broken
  }

  function LifeOf<V>(p: Phase<V>): Life<V> {
    match p
    case Idle => Quiet
    case Waiting(op) => Open(op)
    case Locked(op) => Open(op)
    case Looked(op, _) => Open(op)
    case Counting(op, _, res) => Decided(op, res)
    case Unlocking(op, res) => Decided(op, res)
    case Returning(op, res) => Decided(op, res)
  }

  // ---- invariants

  datatype Claim = Nothing | Reads(i: nat) | Writes(i: nat)

  function ClaimOf<V>(c: Config, s: State<V>, p: Phase<V>): Claim {
    if !HasLock(p) then Nothing else if p.op.Get? then Reads(At(c, s, p.op)) else Writes(At(c, s, p.op))
  }

  predicate ReadsAt<V>(c: Config, s: State<V>, t: nat, i: nat) {
    t < |s.threads| && ClaimOf(c, s, s.threads[t]) == Reads(i)
  }

  predicate WritesAt<V>(c: Config, s: State<V>, t: nat, i: nat) {
    t < |s.threads| && ClaimOf(c, s, s.threads[t]) == Writes(i)
  }

  /** The locks say exactly who is between lock and unlock, and a writer is alone. */
  ghost predicate LocksRight<V>(c: Config, s: State<V>) {
    && |s.locks| == |s.shards|
    && (forall i :: 0 <= i < |s.locks| && s.locks[i].writer.Some? ==> s.locks[i].readers == {})
    && (forall i, t: nat :: 0 <= i < |s.locks| ==> (t in s.locks[i].readers <==> ReadsAt(c, s, t, i)))
    && (forall i, t: nat :: 0 <= i < |s.locks| ==> (s.locks[i].writer == Some(t) <==> WritesAt(c, s, t, i)))
  }

  /** What a goroutine found under its lock is still what its shard holds. */
  ghost predicate LooksRight<V>(c: Config, s: State<V>) {
    forall t :: 0 <= t < |s.threads| && s.threads[t].Looked? ==>
      var p := s.threads[t];
      At(c, s, p.op) < |s.shards| && p.found == Find(s.shards[At(c, s, p.op)], p.op.key)
  }

  ghost predicate LivesRight<V>(s: State<V>) {
    forall t :: 0 <= t < |s.threads| ==> LifeAfter(s.events, t) == LifeOf(s.threads[t])
  }

  function PendingOf<V>(p: Phase<V>): int {
    if p.Counting? then p.delta else 0
  }

  /** The counter updates still to be made. */
  function Pending<V>(threads: seq<Phase<V>>): int {
    if threads == [] then 0 else Pending(threads[..|threads| - 1]) + PendingOf(threads[|threads| - 1])
  }

  ghost predicate CountRight<V>(s: State<V>) {
    s.count == Wrap32(|MapAfter(s.events)| - Pending(s.threads))
  }

  ghost predicate Inv<V>(c: Config, s: State<V>) {
    && |s.threads| == c.threads
    && LocksRight(c, s)
    && Stored(c.hash, MapAfter(s.events), s.shards)
    && LooksRight(c, s)
    && LivesRight(s)
    && Sequential(s.events)
    && CountRight(s)
  }

  // ---- proofs

  lemma InitialInv<V>(c: Config)
    requires Capacity.CanMake(c.param)
    ensures Inv(c, Initial<V>(c))
  {
    hide Stored, ShardOf, Capacity.CapacityOf, Capacity.Pow2, Capacity.Spread;
    Capacity.SizeRange(c.param);
    StoredNothing<V>(c.hash, Capacity.CapacityOf(c.param));
    NothingPending<V>(c.threads);
  }

  lemma {:induction false} NothingPending<V>(n: nat)
    ensures Pending(seq<Phase<V>>(n, _ => Idle)) == 0
  {
    if n > 0 {
      NothingPending<V>(n - 1);
      assert seq<Phase<V>>(n, _ => Idle)[..n - 1] == seq<Phase<V>>(n - 1, _ => Idle);
    }
  }

  lemma {:induction false} PendingUpdate<V>(threads: seq<Phase<V>>, t: nat, p: Phase<V>)
    requires t < |threads|
    ensures Pending(threads[t := p]) == Pending(threads) - PendingOf(threads[t]) + PendingOf(p)
  {
    var n := |threads| - 1;
    if t < n {
      PendingUpdate(threads[..n], t, p);
      assert threads[t := p][..n] == threads[..n][t := p];
    } else {
      assert threads[t := p][..n] == threads[..n];
    }
  }

  lemma StepLocks<V>(c: Config, s: State<V>, step: Step<V>)
    requires LocksRight(c, s) && Enabled(c, s, step)
    ensures LocksRight(c, Apply(c, s, step))
  {
    hide ShardOf, Find, NewShard, OutcomeOf, DeltaOf;
    var s', t, p := Apply(c, s, step), step.t, s.threads[step.t];
    if step.Lock? || step.Unlock? {
      var i := At(c, s, p.op);
      assert t in s.locks[i].readers <==> ReadsAt(c, s, t, i);
      assert s.locks[i].writer == Some(t) <==> WritesAt(c, s, t, i);
      assert step.Unlock? ==> !ReadsAt(c, s', t, i) && !WritesAt(c, s', t, i);
      assert step.Lock? ==> (ReadsAt(c, s', t, i) <==> p.op.Get?) && (WritesAt(c, s', t, i) <==> !p.op.Get?);
      LockChanges(c, s, s', t, i);
    } else {
      forall u: nat, i: nat
        ensures ReadsAt(c, s', u, i) <==> ReadsAt(c, s, u, i)
        ensures WritesAt(c, s', u, i) <==> WritesAt(c, s, u, i)
      {
      }
    }
  }

  /** One goroutine takes or gives up its claim on shard i. */
  lemma LockChanges<V>(c: Config, s: State<V>, s': State<V>, t: nat, i: nat)
    requires LocksRight(c, s) && t < |s.threads| && i < |s.locks|
    requires |s'.threads| == |s.threads| && s'.shards == s.shards
    requires forall u :: 0 <= u < |s.threads| && u != t ==> s'.threads[u] == s.threads[u]
    requires |s'.locks| == |s.locks| && forall j :: 0 <= j < |s.locks| && j != i ==> s'.locks[j] == s.locks[j]
    requires forall j: nat :: j != i ==>
      !ReadsAt(c, s, t, j) && !WritesAt(c, s, t, j) && !ReadsAt(c, s', t, j) && !WritesAt(c, s', t, j)
    requires s'.locks[i].writer.Some? ==> s'.locks[i].readers == {}
    requires forall u: nat :: u in s'.locks[i].readers <==>
      if u == t then ReadsAt(c, s', t, i) else u in s.locks[i].readers
    requires forall u: nat :: s'.locks[i].writer == Some(u) <==>
      if u == t then WritesAt(c, s', t, i) else s.locks[i].writer == Some(u)
    ensures LocksRight(c, s')
  {
    hide ShardOf;
    forall j, u: nat | 0 <= j < |s'.locks|
      ensures u in s'.locks[j].readers <==> ReadsAt(c, s', u, j)
      ensures s'.locks[j].writer == Some(u) <==> WritesAt(c, s', u, j)
    {
      assert u in s.locks[j].readers <==> ReadsAt(c, s, u, j);
      assert s.locks[j].writer == Some(u) <==> WritesAt(c, s, u, j);
    }
  }

  /** A goroutine that holds a shard for writing is the only one that holds it. */
  lemma Exclusive<V>(c: Config, s: State<V>, t: nat, u: nat)
    requires LocksRight(c, s) && t < |s.threads| && u < |s.threads| && t != u
    requires HasLock(s.threads[t]) && HasLock(s.threads[u])
    requires At(c, s, s.threads[t].op) == At(c, s, s.threads[u].op) < |s.shards|
    ensures s.threads[t].op.Get? && s.threads[u].op.Get?
  {
    hide ShardOf;
    var i := At(c, s, s.threads[t].op);
    assert ReadsAt(c, s, t, i) || WritesAt(c, s, t, i);
    assert ReadsAt(c, s, u, i) || WritesAt(c, s, u, i);
  }

  lemma StepLooks<V>(c: Config, s: State<V>, step: Step<V>)
    requires LocksRight(c, s) && LooksRight(c, s) && Enabled(c, s, step)
    ensures LooksRight(c, Apply(c, s, step))
  {
    hide ShardOf, OutcomeOf, DeltaOf, LocksRight;
    var s' := Apply(c, s, step);
    forall u | 0 <= u < |s'.threads| && s'.threads[u].Looked?
      ensures var p := s'.threads[u];
              At(c, s', p.op) < |s'.shards| && p.found == Find(s'.shards[At(c, s', p.op)], p.op.key)
    {
      if step.Act? && u != step.t && At(c, s, s.threads[u].op) == At(c, s, s.threads[step.t].op) {
        Exclusive(c, s, step.t, u);
      }
    }
  }

  lemma StepLives<V>(c: Config, s: State<V>, step: Step<V>)
    requires LivesRight(s) && Enabled(c, s, step)
    ensures LivesRight(Apply(c, s, step))
  {
    hide ShardOf, OutcomeOf, DeltaOf, NewShard, Find, Acquire, Release, Free;
    var s' := Apply(c, s, step);
    if s'.events != s.events {
      assert s'.events[..|s'.events| - 1] == s.events;
    }
  }

  lemma MapAfterNext<V>(events: seq<Event<V>>, e: Event<V>)
    ensures MapAfter(events + [e]) == if e.TookEffect? then OnMap(MapAfter(events), e.op).0 else MapAfter(events)
  {
    assert (events + [e])[..|events|] == events;
  }

  lemma SequentialNext<V>(events: seq<Event<V>>, e: Event<V>)
    requires Sequential(events)
    requires e.TookEffect? ==> e.res == OnMap(MapAfter(events), e.op).1
    ensures Sequential(events + [e])
  {
    hide OnMap, MapAfter;
    var next := events + [e];
    forall k | 0 <= k < |next| && next[k].TookEffect?
      ensures next[k].res == OnMap(MapAfter(next[..k]), next[k].op).1
    {
      assert next[..k] == events[..k];
      assert k == |events| ==> events[..k] == events;
    }
  }

  /** Acting on one shard is the operation on the whole map. */
  lemma ActStored<V>(hash: Hash, m: map<Bytes, V>, shards: seq<map<Bytes, V>>, op: Op<V>)
    requires Stored(hash, m, shards)
    ensures var i := ShardOf(hash, |shards|, op.key);
            && i < |shards|
            && var found := Find(shards[i], op.key);
               && Stored(hash, OnMap(m, op).0, shards[i := NewShard(op, found, shards[i])])
               && OnMap(m, op).1 == OutcomeOf(op, found)
               && |OnMap(m, op).0| == |m| + DeltaOf(op, found)
  {
    hide Stored, ShardOf;
    StoredAt(hash, m, shards, op.key);
    var i := ShardOf(hash, |shards|, op.key);
    assert shards[i := shards[i]] == shards;
    if op.Put? || op.PutIfAbsent? || op.PutIfExists? {
      StoredPut(hash, m, shards, op.key, op.val);
      PutSize(m, op.key, op.val);
    } else if op.Remove? {
      StoredRemove(hash, m, shards, op.key);
      RemoveSize(m, op.key);
    }
  }

  lemma WrapAdd(n: int, d: int)
    ensures Wrap32(Wrap32(n) + d) == Wrap32(n + d)
  {
    var k := (n + 0x8000_0000) / 0x1_0000_0000;
    assert Wrap32(n) == n - k * 0x1_0000_0000;
  }

  lemma StepMap<V>(c: Config, s: State<V>, step: Step<V>)
    requires Stored(c.hash, MapAfter(s.events), s.shards) && LooksRight(c, s) && Sequential(s.events) && CountRight(s)
    requires Enabled(c, s, step)
    ensures var s' := Apply(c, s, step);
            Stored(c.hash, MapAfter(s'.events), s'.shards) && Sequential(s'.events) && CountRight(s')
  {
    hide Stored, ShardOf, Sequential, MapAfter, OnMap, NewShard, OutcomeOf, DeltaOf, Find, Wrap32, Pending;
    var s' := Apply(c, s, step);
    var p := s.threads[step.t];
    PendingUpdate(s.threads, step.t, s'.threads[step.t]);
    match step
    case Call(t, op) =>
      MapAfterNext(s.events, Called(t, op));
      SequentialNext(s.events, Called(t, op));
    case Return(t) =>
      MapAfterNext(s.events, Returned(t, p.res));
      SequentialNext(s.events, Returned(t, p.res));
    case Act(t) =>
      ActStored(c.hash, MapAfter(s.events), s.shards, p.op);
      MapAfterNext(s.events, TookEffect(t, p.op, OutcomeOf(p.op, p.found)));
      SequentialNext(s.events, TookEffect(t, p.op, OutcomeOf(p.op, p.found)));
    case Adjust(t) =>
      WrapAdd(|MapAfter(s.events)| - Pending(s.threads), p.delta);
    case _ =>
  }

  /** Every step of every goroutine keeps the invariant. */
  lemma StepInv<V>(c: Config, s: State<V>, step: Step<V>)
    requires Inv(c, s) && Enabled(c, s, step)
    ensures Inv(c, Apply(c, s, step))
  {
    hide LocksRight, Stored, LooksRight, LivesRight, Sequential, CountRight, MapAfter;
    StepLocks(c, s, step);
    StepLooks(c, s, step);
    StepLives(c, s, step);
    StepMap(c, s, step);
  }

  lemma {:induction false} RunInv<V>(c: Config, steps: seq<Step<V>>)
    requires Capacity.CanMake(c.param) && RunSteps(c, steps).Some?
    ensures Inv(c, RunSteps(c, steps).value)
  {
    hide Inv, Enabled, Apply, Initial;
    if steps == [] {
      InitialInv<V>(c);
    } else {
      RunInv(c, steps[..|steps| - 1]);
      StepInv(c, RunSteps(c, steps[..|steps| - 1]).value, steps[|steps| - 1]);
    }
  }

  // ---- what every run gives

  /** t's latest call, at index a, is still open at the end of the history. */
  ghost predicate CallOpen<V>(events: seq<Event<V>>, t: nat, op: Op<V>, a: int) {
    && 0 <= a < |events| && events[a] == Called(t, op)
    && forall k :: a < k < |events| ==> events[k].t != t
  }

  /** t's latest call, at index a, took effect at index e and has not returned. */
  ghost predicate CallDecided<V>(events: seq<Event<V>>, t: nat, op: Op<V>, res: Outcome<V>, a: int, e: int) {
    && 0 <= a < e < |events| && events[a] == Called(t, op) && events[e] == TookEffect(t, op, res)
    && forall k :: a < k < |events| && k != e ==> events[k].t != t
  }

  lemma {:induction false} LifeMeans<V>(events: seq<Event<V>>, t: nat)
    ensures var life := LifeAfter(events, t);
            && (life.Open? ==> exists a :: CallOpen(events, t, life.op, a))
            && (life.Decided? ==> exists a, e :: CallDecided(events, t, life.op, life.res, a, e))
  {
    if events != [] {
      var before, e := events[..|events| - 1], events[|events| - 1];
      var life := LifeAfter(before, t);
      LifeMeans(before, t);
      if e.t == t {
        if e.Called? && life.Quiet? {
          assert CallOpen(events, t, e.op, |events| - 1);
        } else if e.TookEffect? && life == Open(e.op) {
          var a :| CallOpen(before, t, life.op, a);
          assert CallDecided(events, t, e.op, e.res, a, |events| - 1);
        }
      } else if life.Open? {
        var a :| CallOpen(before, t, life.op, a);
        assert CallOpen(events, t, life.op, a);
      } else if life.Decided? {
        var a, d :| CallDecided(before, t, life.op, life.res, a, d);
        assert CallDecided(events, t, life.op, life.res, a, d);
      }
    }
  }

  lemma {:induction false} BrokenStays<V>(events: seq<Event<V>>, t: nat, k: nat)
    requires k <= |events| && !LifeAfter(events, t).Broken?
    ensures !LifeAfter(events[..k], t).Broken?
    decreases |events|
  {
    if k < |events| {
      var before := events[..|events| - 1];
      BrokenStays(before, t, k);
      assert before[..k] == events[..k];
    } else {
      assert events[..k] == events;
    }
  }

  /** A call that returned took effect exactly once between its call and its return, with the
      result that it returned. */
  ghost predicate Explained<V>(events: seq<Event<V>>, r: nat)
    requires r < |events| && events[r].Returned?
  {
    exists a, e :: 0 <= a < r && events[a].Called? &&
      CallDecided(events[..r], events[r].t, events[a].op, events[r].res, a, e)
  }

  lemma ReturnExplained<V>(events: seq<Event<V>>, r: nat)
    requires r < |events| && events[r].Returned? && !LifeAfter(events, events[r].t).Broken?
    ensures Explained(events, r)
  {
    var t := events[r].t;
    BrokenStays(events, t, r + 1);
    assert events[..r + 1][..r] == events[..r];
    LifeMeans(events[..r], t);
  }

  ghost predicate ByThreads<V>(c: Config, events: seq<Event<V>>) {
    forall k :: 0 <= k < |events| ==> events[k].t < c.threads
  }

  lemma {:induction false} RunByThreads<V>(c: Config, steps: seq<Step<V>>)
    requires Capacity.CanMake(c.param) && RunSteps(c, steps).Some?
    ensures var s := RunSteps(c, steps).value; |s.threads| == c.threads && ByThreads(c, s.events)
  {
    hide ShardOf, Stored;
    if steps != [] {
      RunByThreads(c, steps[..|steps| - 1]);
    }
  }

  /** Linearizability of the single-key operations, for every interleaving of any number of
      goroutines: the operations, in the order in which they take effect, are a run of one
      sequential map with the same results; each takes effect between its call and its return
      and returns that result; and the shards hold exactly that map. */
  lemma Linearizable<V>(c: Config, steps: seq<Step<V>>)
    requires Capacity.CanMake(c.param) && RunSteps(c, steps).Some?
    ensures var s := RunSteps(c, steps).value;
            && Sequential(s.events)
            && (forall r :: 0 <= r < |s.events| && s.events[r].Returned? ==> Explained(s.events, r))
            && Stored(c.hash, MapAfter(s.events), s.shards)
  {
    hide RunSteps, Stored, Sequential, LocksRight, LooksRight, Explained;
    RunInv(c, steps);
    RunByThreads(c, steps);
    var s := RunSteps(c, steps).value;
    forall r | 0 <= r < |s.events| && s.events[r].Returned? ensures Explained(s.events, r) {
      ReturnExplained(s.events, r);
    }
  }

  /** The number of entries in all shards. */
  function TotalSize<V>(shards: seq<map<Bytes, V>>): nat {
    if shards == [] then 0 else TotalSize(shards[..|shards| - 1]) + |shards[|shards| - 1]|
  }

  /** The keys of the first k shards. */
  ghost function KeysBelow<V>(hash: Hash, size: nat, m: map<Bytes, V>, k: nat): set<Bytes> {
    set key | key in m && ShardOf(hash, size, key) < k
  }

  lemma {:induction false} SizesBelow<V>(hash: Hash, m: map<Bytes, V>, shards: seq<map<Bytes, V>>, k: nat)
    requires Stored(hash, m, shards) && k <= |shards|
    ensures TotalSize(shards[..k]) == |KeysBelow(hash, |shards|, m, k)|
    decreases k
  {
    hide Stored, ShardOf, KeysBelow;
    if k == 0 {
      assert shards[..0] == [];
      NoKeysBelow(hash, |shards|, m);
    } else {
      SizesBelow(hash, m, shards, k - 1);
      StoredShard(hash, m, shards, k - 1);
      assert shards[..k][..k - 1] == shards[..k - 1];
      KeysOfNext(hash, m, shards, k - 1);
    }
  }

  lemma NoKeysBelow<V>(hash: Hash, size: nat, m: map<Bytes, V>)
    ensures KeysBelow(hash, size, m, 0) == {}
  {
    hide ShardOf;
  }

  lemma KeysOfNext<V>(hash: Hash, m: map<Bytes, V>, shards: seq<map<Bytes, V>>, k: nat)
    requires k < |shards|
    requires forall key :: key in shards[k] ==> ShardOf(hash, |shards|, key) == k
    requires forall key :: ShardOf(hash, |shards|, key) == k ==> (key in m <==> key in shards[k])
    ensures |KeysBelow(hash, |shards|, m, k + 1)| == |KeysBelow(hash, |shards|, m, k)| + |shards[k]|
  {
    hide ShardOf;
    var low, high := KeysBelow(hash, |shards|, m, k), shards[k].Keys;
    assert KeysBelow(hash, |shards|, m, k + 1) == low + high;
    assert low !! high;
  }

  lemma SizesAdd<V>(hash: Hash, m: map<Bytes, V>, shards: seq<map<Bytes, V>>)
    requires Stored(hash, m, shards)
    ensures TotalSize(shards) == |m|
  {
    hide Stored, ShardOf;
    SizesBelow(hash, m, shards, |shards|);
    assert shards[..|shards|] == shards;
    forall key | key in m ensures key in KeysBelow(hash, |shards|, m, |shards|) {
      StoredAt(hash, m, shards, key);
    }
    assert KeysBelow(hash, |shards|, m, |shards|) == m.Keys;
  }

  /** The goroutines that have changed a shard and not yet the counter. */
  function InFlight<V>(threads: seq<Phase<V>>): nat {
    if threads == [] then 0
    else InFlight(threads[..|threads| - 1]) + if threads[|threads| - 1].Counting? then 1 else 0
  }

  ghost predicate UnitDeltas<V>(threads: seq<Phase<V>>) {
    forall t :: 0 <= t < |threads| && threads[t].Counting? ==> -1 <= threads[t].delta <= 1
  }

  lemma {:induction false} PendingBound<V>(threads: seq<Phase<V>>)
    requires UnitDeltas(threads)
    ensures 0 - InFlight(threads) <= Pending(threads) <= InFlight(threads)
  {
    if threads != [] {
      PendingBound(threads[..|threads| - 1]);
    }
  }

  lemma {:induction false} RunDeltas<V>(c: Config, steps: seq<Step<V>>)
    requires Capacity.CanMake(c.param) && RunSteps(c, steps).Some?
    ensures UnitDeltas(RunSteps(c, steps).value.threads)
  {
    hide ShardOf, Stored, NewShard, Find;
    if steps != [] {
      RunDeltas(c, steps[..|steps| - 1]);
    }
  }

  /** In every reachable state the counter is the number of entries short of the updates in
      flight; so it is exact when none is, and otherwise off by at most their number. */
  lemma CounterMatches<V>(c: Config, steps: seq<Step<V>>)
    requires Capacity.CanMake(c.param) && RunSteps(c, steps).Some?
    ensures var s := RunSteps(c, steps).value;
            var n := TotalSize(s.shards);
            && s.count == Wrap32(n - Pending(s.threads))
            && (n + InFlight(s.threads) < 0x8000_0000 ==> n - InFlight(s.threads) <= s.count <= n + InFlight(s.threads))
            && (InFlight(s.threads) == 0 && n < 0x8000_0000 ==> s.count == n)
  {
    hide RunSteps, Stored, LocksRight, LooksRight, Sequential, LivesRight, Pending, InFlight, UnitDeltas;
    RunInv(c, steps);
    RunDeltas(c, steps);
    var s := RunSteps(c, steps).value;
    SizesAdd(c.hash, MapAfter(s.events), s.shards);
    PendingBound(s.threads);
  }

  /** No deadlock: while a call is open somewhere, some goroutine with an open call can go on. */
  lemma SomeoneCanGoOn<V>(c: Config, steps: seq<Step<V>>, t: nat)
    requires Capacity.CanMake(c.param) && RunSteps(c, steps).Some?
    requires t < |RunSteps(c, steps).value.threads| && !RunSteps(c, steps).value.threads[t].Idle?
    ensures exists step: Step<V> :: !step.Call? && Enabled(c, RunSteps(c, steps).value, step)
  {
    hide RunSteps, Stored, ShardOf, Sequential, LivesRight, LooksRight, MapAfter;
    RunInv(c, steps);
    var s := RunSteps(c, steps).value;
    var i := At(c, s, s.threads[t].op);
    StoredAt(c.hash, MapAfter(s.events), s.shards, s.threads[t].op.key);
    if s.threads[t].Waiting? {
      var m := s.locks[i];
      if m.readers != {} {
        var u :| u in m.readers;
        assert ReadsAt(c, s, u, i);
        HolderGoesOn(c, s, u);
      } else if m.writer.Some? {
        assert WritesAt(c, s, m.writer.value, i);
        HolderGoesOn(c, s, m.writer.value);
      } else {
        assert Free(m, s.threads[t].op);
        var step: Step<V> := Lock(t);
        assert Enabled(c, s, step);
      }
    } else if s.threads[t].Returning? {
      var step: Step<V> := Return(t);
      assert Enabled(c, s, step);
    } else {
      HolderGoesOn(c, s, t);
    }
  }

  /** A goroutine between lock and unlock waits for nobody. */
  lemma HolderGoesOn<V>(c: Config, s: State<V>, t: nat)
    requires LocksRight(c, s) && t < |s.threads| && HasLock(s.threads[t])
    requires At(c, s, s.threads[t].op) < |s.shards|
    ensures exists step: Step<V> :: !step.Call? && Enabled(c, s, step)
  {
    hide ShardOf;
    var step: Step<V> := match s.threads[t]
      case Locked(_) => Lookup(t)
      case Looked(_, _) => Act(t)
      case Counting(_, _, _) => Adjust(t)
      case _ => Unlock(t);
    assert Enabled(c, s, step);
  }

  /** A goroutine waits for a shard exactly while another one is inside a call on it that is not a Get,
      or its own call is none and another one is inside: any number of Gets share a shard. */
  lemma WaitsIff<V>(c: Config, steps: seq<Step<V>>, t: nat)
    requires Capacity.CanMake(c.param) && RunSteps(c, steps).Some?
    requires t < |RunSteps(c, steps).value.threads| && RunSteps(c, steps).value.threads[t].Waiting?
    ensures var s := RunSteps(c, steps).value;
            var op := s.threads[t].op;
            Enabled(c, s, Lock(t)) <==>
            forall u :: 0 <= u < |s.threads| && HasLock(s.threads[u]) && At(c, s, s.threads[u].op) == At(c, s, op) ==>
              op.Get? && s.threads[u].op.Get?
  {
    hide RunSteps, Stored, ShardOf, Sequential, LivesRight, LooksRight, MapAfter, CountRight;
    RunInv(c, steps);
    var s := RunSteps(c, steps).value;
    StoredAt(c.hash, MapAfter(s.events), s.shards, s.threads[t].op.key);
    FreeIff(c, s, s.threads[t].op);
  }

  lemma FreeIff<V>(c: Config, s: State<V>, op: Op<V>)
    requires LocksRight(c, s) && At(c, s, op) < |s.shards|
    ensures Free(s.locks[At(c, s, op)], op) <==>
            forall u :: 0 <= u < |s.threads| && HasLock(s.threads[u]) && At(c, s, s.threads[u].op) == At(c, s, op) ==>
              op.Get? && s.threads[u].op.Get?
  {
    hide ShardOf;
    var i := At(c, s, op);
    var m := s.locks[i];
    if m.writer.Some? {
      assert WritesAt(c, s, m.writer.value, i);
    }
    if m.readers != {} {
      var u :| u in m.readers;
      assert ReadsAt(c, s, u, i);
    }
    forall u: nat | u < |s.threads| && HasLock(s.threads[u]) && At(c, s, s.threads[u].op) == i
      ensures u in m.readers || m.writer == Some(u)
      ensures s.threads[u].op.Get? <==> u in m.readers
    {
      assert ReadsAt(c, s, u, i) <==> s.threads[u].op.Get?;
      assert WritesAt(c, s, u, i) <==> !s.threads[u].op.Get?;
    }
  }
}
