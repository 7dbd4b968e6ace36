/** Commands that read a key and then write it, run by several goroutines at once (execIncr,
    execIncrBy, execDecr and execDecrBy in database/string.go): each of the two dictionary calls is
    atomic, the command is not. */
module LostUpdates {
  import opened Bytes
  import opened ConcurrentDict
  import opened DictThreads
  import Capacity

  /** The number a key stands for; an absent key counts as 0. */
  function Number<V>(m: map<Bytes, V>, key: Bytes, num: V -> int): int {
    if key in m then num(m[key]) else 0
  }

  function NumberAt<V>(events: seq<Event<V>>, key: Bytes, num: V -> int, n: nat): int
    requires n <= |events|
  {
    Number(MapAfter(events[..n]), key, num)
  }

  predicate IsWrite<V>(e: Event<V>, key: Bytes) {
    e.TookEffect? && !e.op.Get? && e.op.key == key
  }

  /** Where, among the first n events, an operation of this goroutine took effect last. */
  function LastEffect<V>(events: seq<Event<V>>, t: nat, n: nat): (i: int)
    requires n <= |events|
    ensures -1 <= i < n && (i >= 0 ==> events[i].TookEffect?)
  {
    if n == 0 then -1
    else if events[n - 1].TookEffect? && events[n - 1].t == t then n - 1
    else LastEffect(events, t, n - 1)
  }

  function ReadOf<V>(events: seq<Event<V>>, k: nat): (i: int)
    requires k < |events|
    ensures -1 <= i < k && (i >= 0 ==> events[i].TookEffect?)
  {
    LastEffect(events, events[k].t, k)
  }

  /** The write is a Put, and the last thing its goroutine did was to read the key. */
  predicate IsCommand<V>(events: seq<Event<V>>, key: Bytes, k: nat)
    requires k < |events|
  {
    var g := ReadOf(events, k);
    IsWrite(events[k], key) && events[k].op.Put? && g >= 0 && events[g].op == Get(key)
  }

  /** What a command has added to the number it had read. */
  function Amount<V>(events: seq<Event<V>>, key: Bytes, num: V -> int, k: nat): int
    requires k < |events|
  {
    if !IsCommand(events, key, k) then 0
    else
      var read := events[ReadOf(events, k)].res;
      num(events[k].op.val) - if read.Value? && read.val.Some? then num(read.val.value) else 0
  }

  /** All that the commands among the first n events have added. */
  function Added<V>(events: seq<Event<V>>, key: Bytes, num: V -> int, n: nat): int
    requires n <= |events|
  {
    if n == 0 then 0 else Added(events, key, num, n - 1) + Amount(events, key, num, n - 1)
  }

  /** The key is written by such commands only. */
  ghost predicate OnlyCommands<V>(events: seq<Event<V>>, key: Bytes) {
    forall k :: 0 <= k < |events| && IsWrite(events[k], key) ==> IsCommand(events, key, k)
  }

  ghost predicate AllPositive<V>(events: seq<Event<V>>, key: Bytes, num: V -> int) {
    forall k :: 0 <= k < |events| && IsWrite(events[k], key) ==> Amount(events, key, num, k) > 0
  }

  /** Another write of the key falls between what the command has read and what it writes. */
  ghost predicate Interrupted<V>(events: seq<Event<V>>, key: Bytes, k: nat)
    requires k < |events|
  {
    exists j :: ReadOf(events, k) < j < k && IsWrite(events[j], key)
  }

  ghost predicate Undisturbed<V>(events: seq<Event<V>>, key: Bytes, n: nat)
    requires n <= |events|
  {
    forall k :: 0 <= k < n && IsWrite(events[k], key) ==> !Interrupted(events, key, k)
  }

  // ---- one event

  /** Only writes of the key change its number, and a Put sets it. */
  lemma NumberNext<V>(events: seq<Event<V>>, key: Bytes, num: V -> int, n: nat)
    requires n < |events|
    ensures !IsWrite(events[n], key) ==> NumberAt(events, key, num, n + 1) == NumberAt(events, key, num, n)
    ensures IsWrite(events[n], key) && events[n].op.Put? ==> NumberAt(events, key, num, n + 1) == num(events[n].op.val)
  {
    MapAfterNext(events[..n], events[n]);
    assert events[..n + 1] == events[..n] + [events[n]];
  }

  /** A command writes what it has read and its amount. */
  lemma WritesSum<V>(events: seq<Event<V>>, key: Bytes, num: V -> int, k: nat)
    requires Sequential(events) && k < |events| && IsCommand(events, key, k)
    ensures NumberAt(events, key, num, k + 1) ==
            NumberAt(events, key, num, ReadOf(events, k)) + Amount(events, key, num, k)
  {
    hide MapAfter, LastEffect;
    var g := ReadOf(events, k);
    NumberNext(events, key, num, k);
    assert events[g].res == OnMap(MapAfter(events[..g]), events[g].op).1;
  }

  /** What is added by a stretch of the history in which nothing writes the key, and by one in which
      something does. */
  lemma {:induction false} AddedBetween<V>(events: seq<Event<V>>, key: Bytes, num: V -> int, g: nat, n: nat)
    requires g <= n <= |events|
    ensures (forall j :: g <= j < n ==> !IsWrite(events[j], key)) ==>
            Added(events, key, num, n) == Added(events, key, num, g)
    ensures AllPositive(events, key, num) ==>
      && Added(events, key, num, g) <= Added(events, key, num, n)
      && ((exists j :: g <= j < n && IsWrite(events[j], key)) ==>
        Added(events, key, num, g) < Added(events, key, num, n))
    decreases n
  {
    hide Amount;
    if g < n {
      AddedBetween(events, key, num, g, n - 1);
      if !IsWrite(events[n - 1], key) {
        NoAmount(events, key, num, n - 1);
      }
    }
  }

  lemma NoAmount<V>(events: seq<Event<V>>, key: Bytes, num: V -> int, k: nat)
    requires k < |events| && !IsWrite(events[k], key)
    ensures Amount(events, key, num, k) == 0
  {
  }

  lemma NothingAdded<V>(events: seq<Event<V>>, key: Bytes, num: V -> int)
    ensures NumberAt(events, key, num, 0) == 0 == Added(events, key, num, 0)
  {
    assert events[..0] == [];
  }

  // ---- histories

  /** Whatever the commands add, none of it is lost if no command is interrupted. */
  lemma {:induction false} NothingLost<V>(events: seq<Event<V>>, key: Bytes, num: V -> int, n: nat)
    requires n <= |events| && Sequential(events) && OnlyCommands(events, key) && Undisturbed(events, key, n)
    ensures NumberAt(events, key, num, n) == Added(events, key, num, n)
    decreases n
  {
    hide Sequential, IsWrite, IsCommand, NumberAt, Amount;
    if n == 0 {
      NothingAdded(events, key, num);
    } else {
      var k := n - 1;
      NumberNext(events, key, num, k);
      if IsWrite(events[k], key) {
        var g := ReadOf(events, k);
        ReadIsNoWrite(events, key, k);
        NothingLost(events, key, num, g);
        WritesSum(events, key, num, k);
        assert forall j :: g < j < k ==> !IsWrite(events[j], key);
        AddedBetween(events, key, num, g, k);
      } else {
        NothingLost(events, key, num, k);
        NoAmount(events, key, num, k);
      }
    }
  }

  lemma ReadIsNoWrite<V>(events: seq<Event<V>>, key: Bytes, k: nat)
    requires k < |events| && IsCommand(events, key, k)
    ensures ReadOf(events, k) >= 0 && !IsWrite(events[ReadOf(events, k)], key)
  {
  }

  /** If every command adds something, the key never stands for more than was added, and it stands for
      all of it exactly if no command was interrupted. */
  lemma {:induction false} LosesIff<V>(events: seq<Event<V>>, key: Bytes, num: V -> int, n: nat)
    requires n <= |events| && Sequential(events) && OnlyCommands(events, key) && AllPositive(events, key, num)
    ensures NumberAt(events, key, num, n) <= Added(events, key, num, n)
    ensures NumberAt(events, key, num, n) == Added(events, key, num, n) <==> Undisturbed(events, key, n)
    decreases n
  {
    hide Sequential, IsWrite, IsCommand, NumberAt, Amount;
    if Undisturbed(events, key, n) {
      NothingLost(events, key, num, n);
    } else {
      var k := n - 1;
      NumberNext(events, key, num, k);
      if IsWrite(events[k], key) {
        LostAt(events, key, num, k);
      } else {
        LosesIff(events, key, num, k);
        NoAmount(events, key, num, k);
      }
    }
  }

  /** A command after an interruption, or interrupted itself, does not make up for what was lost. */
  lemma {:induction false} LostAt<V>(events: seq<Event<V>>, key: Bytes, num: V -> int, k: nat)
    requires k < |events| && Sequential(events) && OnlyCommands(events, key) && AllPositive(events, key, num)
    requires IsWrite(events[k], key) && !Undisturbed(events, key, k + 1)
    ensures NumberAt(events, key, num, k + 1) < Added(events, key, num, k + 1)
    decreases k, 0
  {
    hide Sequential, IsWrite, IsCommand, NumberAt, Amount;
    var g := ReadOf(events, k);
    ReadIsNoWrite(events, key, k);
    LosesIff(events, key, num, g);
    WritesSum(events, key, num, k);
    AddedBetween(events, key, num, g, k);
    if !Interrupted(events, key, k) {
      var i :| 0 <= i < k + 1 && IsWrite(events[i], key) && Interrupted(events, key, i);
      assert i < g;
    }
  }

  // ---- runs of the dictionary

  /** The number in the shard of the key. */
  function NumberInside<V>(c: Config, s: State<V>, key: Bytes, num: V -> int): int {
    var i := ShardOf(c.hash, |s.shards|, key);
    if i < |s.shards| then Number(s.shards[i], key, num) else 0
  }

  lemma InsideIs<V>(c: Config, steps: seq<Step<V>>, key: Bytes, num: V -> int)
    requires Capacity.CanMake(c.param) && RunSteps(c, steps).Some?
    ensures var s := RunSteps(c, steps).value;
            Sequential(s.events) && NumberInside(c, s, key, num) == NumberAt(s.events, key, num, |s.events|)
  {
    hide RunSteps, Stored, Sequential, Explained, ShardOf;
    Linearizable(c, steps);
    var s := RunSteps(c, steps).value;
    assert s.events[..|s.events|] == s.events;
    StoredAt(c.hash, MapAfter(s.events), s.shards, key);
  }

  /** For every interleaving of any number of goroutines: if a key is written only by commands that
      read it and then put something larger, its number is all that they have added exactly if no
      write of another falls between a command's reading and its writing. */
  lemma LostUpdateIff<V>(c: Config, steps: seq<Step<V>>, key: Bytes, num: V -> int)
    requires Capacity.CanMake(c.param) && RunSteps(c, steps).Some?
    requires var events := RunSteps(c, steps).value.events;
             OnlyCommands(events, key) && AllPositive(events, key, num)
    ensures var s := RunSteps(c, steps).value;
            && NumberInside(c, s, key, num) <= Added(s.events, key, num, |s.events|)
            && (NumberInside(c, s, key, num) == Added(s.events, key, num, |s.events|) <==>
                Undisturbed(s.events, key, |s.events|))
  {
    hide *;
    InsideIs(c, steps, key, num);
    LosesIff(RunSteps(c, steps).value.events, key, num, |RunSteps(c, steps).value.events|);
  }

  /** How many of the first n events write the key. */
  function Writes<V>(events: seq<Event<V>>, key: Bytes, n: nat): nat
    requires n <= |events|
  {
    if n == 0 then 0 else Writes(events, key, n - 1) + if IsWrite(events[n - 1], key) then 1 else 0
  }

  lemma {:induction false} AddedByOnes<V>(events: seq<Event<V>>, key: Bytes, num: V -> int, n: nat)
    requires n <= |events|
    requires forall k :: 0 <= k < n && IsWrite(events[k], key) ==> Amount(events, key, num, k) == 1
    ensures Added(events, key, num, n) == Writes(events, key, n)
  {
    hide Amount;
    if n > 0 {
      AddedByOnes(events, key, num, n - 1);
      if !IsWrite(events[n - 1], key) {
        NoAmount(events, key, num, n - 1);
      }
    }
  }

  /** INCR: the key stands for the number of commands executed exactly if none was interrupted. */
  lemma IncrementsIff<V>(c: Config, steps: seq<Step<V>>, key: Bytes, num: V -> int)
    requires Capacity.CanMake(c.param) && RunSteps(c, steps).Some?
    requires var events := RunSteps(c, steps).value.events;
             && OnlyCommands(events, key)
             && forall k :: 0 <= k < |events| && IsWrite(events[k], key) ==> Amount(events, key, num, k) == 1
    ensures var s := RunSteps(c, steps).value;
            NumberInside(c, s, key, num) == Writes(s.events, key, |s.events|) <==>
              Undisturbed(s.events, key, |s.events|)
  {
    hide RunSteps, OnlyCommands, Amount, IsWrite, Undisturbed, NumberInside, Added, Writes;
    var events := RunSteps(c, steps).value.events;
    LostUpdateIff(c, steps, key, num);
    AddedByOnes(events, key, num, |events|);
  }

  // ---- two INCRs

  ghost predicate Reached(c: Config, s: State<int>)
    requires Capacity.CanMake(c.param)
  {
    exists steps :: RunSteps(c, steps) == Some(s)
  }

  lemma ReachedNext(c: Config, s: State<int>, step: Step<int>)
    requires Capacity.CanMake(c.param) && Reached(c, s) && Enabled(c, s, step)
    ensures Reached(c, Apply(c, s, step))
  {
    hide Enabled, Apply, Initial;
    var steps :| RunSteps(c, steps) == Some(s);
    assert (steps + [step])[..|steps|] == steps;
    assert RunSteps(c, steps + [step]) == Some(Apply(c, s, step));
  }

  /** Nobody is inside a call. */
  ghost predicate Rested(c: Config, s: State<int>) {
    && |s.threads| == c.threads && (forall t :: 0 <= t < c.threads ==> s.threads[t] == Idle)
    && |s.locks| == |s.shards| && (forall i :: 0 <= i < |s.locks| ==> s.locks[i] == RWMutex({}, None))
  }

  /** A call that nobody else gets in between. */
  lemma WholeCall(c: Config, s: State<int>, t: nat, op: Op<int>) returns (s': State<int>)
    requires Capacity.CanMake(c.param) && Reached(c, s) && Rested(c, s) && t < c.threads && At(c, s, op) < |s.shards|
    ensures Reached(c, s') && Rested(c, s')
    ensures var i := At(c, s, op);
            var found := Find(s.shards[i], op.key);
            var res := OutcomeOf(op, found);
            && s'.shards == s.shards[i := NewShard(op, found, s.shards[i])]
            && s'.events == s.events + [Called(t, op), TookEffect(t, op, res), Returned(t, res)]
  {
    hide Reached, ShardOf, Find, NewShard, OutcomeOf, DeltaOf;
    s' := s;
    ReachedNext(c, s', Call(t, op));
    s' := Apply(c, s', Call(t, op));
    ReachedNext(c, s', Lock(t));
    s' := Apply(c, s', Lock(t));
    ReachedNext(c, s', Lookup(t));
    s' := Apply(c, s', Lookup(t));
    ReachedNext(c, s', Act(t));
    s' := Apply(c, s', Act(t));
    if s'.threads[t].Counting? {
      ReachedNext(c, s', Adjust(t));
      s' := Apply(c, s', Adjust(t));
    }
    ReachedNext(c, s', Unlock(t));
    s' := Apply(c, s', Unlock(t));
    ReachedNext(c, s', Return(t));
    s' := Apply(c, s', Return(t));
  }

  function Same(n: int): int { n }

  function WholeEvents(t: nat, op: Op<int>, res: Outcome<int>): seq<Event<int>> {
    [Called(t, op), TookEffect(t, op, res), Returned(t, res)]
  }

  /** Both read the key, which is absent, and both put 1. */
  function Interleaved(key: Bytes): seq<Event<int>> {
    WholeEvents(0, Get(key), Value(None)) + WholeEvents(1, Get(key), Value(None))
    + WholeEvents(0, Put(key, 1), Changed(1)) + WholeEvents(1, Put(key, 1), Changed(0))
  }

  lemma InterleavedCommands(key: Bytes)
    ensures var events := Interleaved(key);
            OnlyCommands(events, key) && AllPositive(events, key, Same) && Added(events, key, Same, |events|) == 2
  {
    hide LastEffect, Added;
    var events := Interleaved(key);
    assert |events| == 12;
    LatestEffect(events, 0, 1, 7);
    LatestEffect(events, 1, 4, 10);
    assert Amount(events, key, Same, 7) == 1 && Amount(events, key, Same, 10) == 1;
    AddedBetween(events, key, Same, 0, 7);
    AddedBetween(events, key, Same, 8, 10);
    AddedBetween(events, key, Same, 11, 12);
    AddedNext(events, key, Same, 7);
    AddedNext(events, key, Same, 10);
    NothingAdded(events, key, Same);
  }

  lemma AddedNext<V>(events: seq<Event<V>>, key: Bytes, num: V -> int, n: nat)
    requires n < |events|
    ensures Added(events, key, num, n + 1) == Added(events, key, num, n) + Amount(events, key, num, n)
  {
    hide Amount;
  }

  lemma {:induction false} LatestEffect<V>(events: seq<Event<V>>, t: nat, i: nat, n: nat)
    requires i < n <= |events| && events[i].TookEffect? && events[i].t == t
    requires forall j :: i < j < n ==> !(events[j].TookEffect? && events[j].t == t)
    ensures LastEffect(events, t, n) == i
  {
    if i < n - 1 {
      LatestEffect(events, t, i, n - 1);
    }
  }

  /** Two goroutines increment a new key; both read it before either writes, and it is 1. */
  lemma TwoIncrementsMakeOne(c: Config, key: Bytes) returns (s: State<int>)
    requires Capacity.CanMake(c.param) && c.threads >= 2
    ensures Reached(c, s) && OnlyCommands(s.events, key) && AllPositive(s.events, key, Same)
    ensures Added(s.events, key, Same, |s.events|) == 2 && NumberInside(c, s, key, Same) == 1
  {
    hide Reached, Rested, ShardOf, OnlyCommands, AllPositive, Added, MapAfter;
    s := Initial(c);
    InitialReached(c, key);
    s := WholeCall(c, s, 0, Get(key));
    s := WholeCall(c, s, 1, Get(key));
    s := WholeCall(c, s, 0, Put(key, 1));
    s := WholeCall(c, s, 1, Put(key, 1));
    assert s.events == [] + Interleaved(key) == Interleaved(key);
    InterleavedCommands(key);
  }

  lemma InitialReached(c: Config, key: Bytes)
    requires Capacity.CanMake(c.param)
    ensures var s := Initial<int>(c);
            Reached(c, s) && Rested(c, s) && ShardOf(c.hash, |s.shards|, key) < |s.shards|
  {
    hide ShardOf, Stored, Capacity.CapacityOf;
    InitialInv<int>(c);
    assert RunSteps<int>(c, []) == Some(Initial<int>(c));
    StoredAt(c.hash, map[], Initial<int>(c).shards, key);
  }
}
