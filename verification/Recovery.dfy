/** Restarting from the append-only file (aof/aof.go): which sequential runs it brings back. */
module Recovery {
  import opened Bytes
  import opened Reply
  import opened Commands
  import opened Standalone
  import opened LogCompleteness
  import opened Parser
  import opened RoundTrip
  import opened Aof
  import TextLines

  /** A request whose change, if any, can be read off the log. */
  ghost predicate Durable(before: Ran, req: Request) {
    var selected := SelectedBy(before.sessions, req.conn);
    0 <= selected < |before.dbs| ==> Keepable(before.dbs[selected], req.line)
  }

  /** Whatever the request logs can be read again: no argument but the last is empty. */
  predicate Readable(before: Ran, req: Request, draw: seq<Bytes>) {
    forall r <- StepOf(before, req, draw).records :: SafeLine(r.line)
  }

  /** Whatever the request logs has arguments that fit a slice and do not start with `$`. */
  predicate Fits(before: Ran, req: Request, draw: seq<Bytes>) {
    forall r <- StepOf(before, req, draw).records :: FittedLine(r.line)
  }

  /** Every request of the run is durable when it is executed. */
  ghost predicate DurableRun(start: seq<Keyspace>, reqs: seq<Request>, draws: seq<seq<Bytes>>)
    requires |draws| == |reqs|
  {
    reqs == [] ||
    (var n := |reqs| - 1;
     && DurableRun(start, reqs[..n], draws[..n])
     && Durable(RunAll(start, reqs[..n], draws[..n]), reqs[n]))
  }

  /** Every request of the run draws what it can, and what is logged fits. */
  ghost predicate FittedRun(start: seq<Keyspace>, reqs: seq<Request>, draws: seq<seq<Bytes>>)
    requires |draws| == |reqs|
  {
    reqs == [] ||
    (var n := |reqs| - 1;
     var before := RunAll(start, reqs[..n], draws[..n]);
     && FittedRun(start, reqs[..n], draws[..n])
     && PossibleStep(before, reqs[n], draws[n])
     && Fits(before, reqs[n], draws[n]))
  }

  /** Everything in the log can be read again. */
  predicate ReadableLog(records: seq<Record>) {
    forall r <- records :: SafeLine(r.line)
  }

  /** Loading the file of these records into a fresh server can end with these databases. */
  ghost predicate BringsBack(databases: nat, records: seq<Record>, result: seq<Keyspace>) {
    Loads(Empty(databases), 0, Parse(Written(0, records)).payloads, result)
  }

  /** Loading the file of the run comes back, and ends with the run's databases, whatever is drawn
      meanwhile. */
  ghost predicate Rebuilt(databases: nat, reqs: seq<Request>, draws: seq<seq<Bytes>>)
    requires |draws| == |reqs|
  {
    var r := RunAll(Empty(databases), reqs, draws);
    && Parse(Written(0, r.records)).ending == Closed
    && forall result :: BringsBack(databases, r.records, result) <==> result == r.dbs
  }

  // ---- applying records

  ghost predicate Through(dbs: seq<Keyspace>, a: seq<Record>, b: seq<Record>, result: seq<Keyspace>) {
    exists mid :: Applies(dbs, a, mid) && Applies(mid, b, result)
  }

  lemma {:induction false} AppliesConcat(dbs: seq<Keyspace>, a: seq<Record>, b: seq<Record>, result: seq<Keyspace>)
    ensures Applies(dbs, a + b, result) <==> Through(dbs, a, b, result)
    decreases |a|
  {
    hide ExecBy, Possible;
    if a == [] {
      assert a + b == b;
      assert Applies(dbs, a, dbs);
    } else {
      assert (a + b)[1..] == a[1..] + b && (a + b)[0] == a[0];
      var i, line := a[0].dbIndex, a[0].line;
      if 0 <= i < |dbs| {
        forall next: seq<Keyspace> ensures Applies(next, a[1..] + b, result) <==> Through(next, a[1..], b, result) {
          AppliesConcat(next, a[1..], b, result);
        }
        if Applies(dbs, a + b, result) {
          var draw :| Possible(dbs[i], line, draw)
            && Applies(dbs[i := ExecBy(dbs[i], line, draw).0.ks], a[1..] + b, result);
          var next := dbs[i := ExecBy(dbs[i], line, draw).0.ks];
          assert Through(next, a[1..], b, result);
          var mid :| Applies(next, a[1..], mid) && Applies(mid, b, result);
          assert Applies(dbs, a, mid);
        }
        if Through(dbs, a, b, result) {
          var mid :| Applies(dbs, a, mid) && Applies(mid, b, result);
          var draw :| Possible(dbs[i], line, draw)
            && Applies(dbs[i := ExecBy(dbs[i], line, draw).0.ks], a[1..], mid);
          assert Through(dbs[i := ExecBy(dbs[i], line, draw).0.ks], a[1..], b, result);
        }
      } else {
        AppliesConcat(dbs, a[1..], b, result);
        assert forall mid :: Applies(dbs, a, mid) <==> Applies(dbs, a[1..], mid);
      }
    }
  }

  /** Applying the records ends with these databases, whatever is drawn. */
  ghost predicate OnlyTo(dbs: seq<Keyspace>, records: seq<Record>, target: seq<Keyspace>) {
    forall result :: Applies(dbs, records, result) <==> result == target
  }

  lemma OnlyToMore(dbs: seq<Keyspace>, a: seq<Record>, mid: seq<Keyspace>, b: seq<Record>, target: seq<Keyspace>)
    requires OnlyTo(dbs, a, mid)
    ensures OnlyTo(dbs, a + b, target) <==> OnlyTo(mid, b, target)
  {
    hide Applies;
    forall result ensures Applies(dbs, a + b, result) <==> Applies(mid, b, result) {
      AppliesConcat(dbs, a, b, result);
    }
  }

  ghost predicate AllLists(dbs: seq<Keyspace>) {
    forall i :: 0 <= i < |dbs| ==> ListsNonEmpty(dbs[i])
  }

  lemma LoggedPossible(ks: Keyspace, line: CmdLine, draw: seq<Bytes>)
    requires Possible(ks, line, draw)
    ensures var r := ExecBy(ks, line, draw); |r.1| <= 1 && (r.1 != [] ==> Possible(ks, r.1[0], draw))
  {
    hide Commands.Run, Lookup, ToLower, LogName, Arity, DrawsOf;
    var c := Lookup(ToLower(line[0]));
    if c.Some? && Callable(c.value, line[1..]) {
      LoggedDraws(ks, c.value, line[1..]);
    }
  }

  /** One line: what it logs leads from the keyspace before it to the one after it, and nowhere
      else, exactly if it is keepable. */
  lemma LineIff(dbs: seq<Keyspace>, i: int, line: CmdLine, draw: seq<Bytes>)
    requires 0 <= i < |dbs| && ListsNonEmpty(dbs[i]) && Possible(dbs[i], line, draw)
    ensures var r := ExecBy(dbs[i], line, draw);
            OnlyTo(dbs, if r.1 == [] then [] else [Record(i, r.1[0])], dbs[i := r.0.ks]) <==> Keepable(dbs[i], line)
  {
    hide ExecBy, Possible, Keepable, ListsNonEmpty;
    RecoverableIff(dbs[i], line, draw);
    LoggedPossible(dbs[i], line, draw);
    var r := ExecBy(dbs[i], line, draw);
    var after := dbs[i := r.0.ks];
    assert after == dbs <==> r.0.ks == dbs[i];
    if r.1 == [] {
      assert Applies(dbs, [], dbs);
      assert OnlyTo(dbs, [], after) <==> after == dbs;
    } else {
      var logged := r.1[0];
      var records := [Record(i, logged)];
      assert records[1..] == [];
      assert forall result ::
        Applies(dbs, records, result) <==>
        exists again :: Possible(dbs[i], logged, again) && dbs[i := ExecBy(dbs[i], logged, again).0.ks] == result;
      forall again
        ensures dbs[i := ExecBy(dbs[i], logged, again).0.ks] == after <==> ExecBy(dbs[i], logged, again).0.ks == r.0.ks
      {
        assert dbs[i := ExecBy(dbs[i], logged, again).0.ks][i] == ExecBy(dbs[i], logged, again).0.ks &&
          after[i] == r.0.ks;
      }
      if OnlyTo(dbs, records, after) {
        forall again | Possible(dbs[i], logged, again) ensures ExecBy(dbs[i], logged, again).0.ks == r.0.ks {
          assert Applies(dbs, records, dbs[i := ExecBy(dbs[i], logged, again).0.ks]);
        }
      }
    }
  }

  /** One request of a run. */
  lemma StepIff(before: Ran, req: Request, draw: seq<Bytes>)
    requires AllLists(before.dbs) && PossibleStep(before, req, draw)
    ensures var e := StepOf(before, req, draw);
            AllLists(e.dbs) && (OnlyTo(before.dbs, e.records, e.dbs) <==> Durable(before, req))
  {
    hide ExecBy, Possible, Applies, ListsNonEmpty, OnlyTo, Lookup;
    var dbs, selected := before.dbs, SelectedBy(before.sessions, req.conn);
    if !IsSelect(req.line) && 0 <= selected < |dbs| {
      LineIff(dbs, selected, req.line, draw);
      ExecKeepsLists(dbs[selected], req.line, draw);
    } else {
      NothingApplied(dbs);
      SelectIsNotACommand();
    }
  }

  lemma NothingApplied(dbs: seq<Keyspace>)
    ensures OnlyTo(dbs, [], dbs)
  {
  }

  /** What a request logs belongs to a database of the server, and has the request's arguments. */
  lemma StepRecords(before: Ran, req: Request, draw: seq<Bytes>)
    requires |before.dbs| <= MAX_INT64
    ensures forall r <- StepOf(before, req, draw).records :: GoodRecord(|before.dbs|, r) && r.line[1..] == req.line[1..]
  {
    hide ExecBy, IsSelect;
    var dbs, selected := before.dbs, SelectedBy(before.sessions, req.conn);
    if !IsSelect(req.line) && 0 <= selected < |dbs| {
      LoggedIsCommand(dbs[selected], req.line, draw);
    }
  }

  /** The shape of what a run logs, and lists are non-empty after it. */
  lemma {:induction false} RunRecords(start: seq<Keyspace>, reqs: seq<Request>, draws: seq<seq<Bytes>>)
    requires |start| <= MAX_INT64 && AllLists(start) && |draws| == |reqs| && FittedRun(start, reqs, draws)
    ensures var r := RunAll(start, reqs, draws);
            AllLists(r.dbs) && forall x <- r.records :: GoodRecord(|start|, x) && FittedLine(x.line)
    decreases |reqs|
  {
    hide StepOf, FittedLine, GoodRecord, Durable, PossibleStep, OnlyTo, AllLists;
    if reqs != [] {
      var n := |reqs| - 1;
      var before := RunAll(start, reqs[..n], draws[..n]);
      RunRecords(start, reqs[..n], draws[..n]);
      StepIff(before, reqs[n], draws[n]);
      StepRecords(before, reqs[n], draws[n]);
    }
  }

  lemma {:induction false} RunReplays(start: seq<Keyspace>, reqs: seq<Request>, draws: seq<seq<Bytes>>)
    requires |start| <= MAX_INT64 && AllLists(start) && |draws| == |reqs|
    requires FittedRun(start, reqs, draws) && DurableRun(start, reqs, draws)
    ensures var r := RunAll(start, reqs, draws); OnlyTo(start, r.records, r.dbs)
    decreases |reqs|
  {
    hide StepOf, Durable, PossibleStep, Fits, OnlyTo, AllLists, GoodRecord, FittedLine;
    NothingApplied(start);
    if reqs != [] {
      var n := |reqs| - 1;
      RunReplays(start, reqs[..n], draws[..n]);
      LastReplaysIff(start, reqs, draws);
    }
  }

  /** After a run whose records lead where it has ended, one more request. */
  lemma LastReplaysIff(start: seq<Keyspace>, reqs: seq<Request>, draws: seq<seq<Bytes>>)
    requires |start| <= MAX_INT64 && AllLists(start) && |draws| == |reqs| > 0 && FittedRun(start, reqs, draws)
    requires var before := RunAll(start, reqs[..|reqs| - 1], draws[..|reqs| - 1]);
             OnlyTo(start, before.records, before.dbs)
    ensures var r, before := RunAll(start, reqs, draws), RunAll(start, reqs[..|reqs| - 1], draws[..|reqs| - 1]);
            OnlyTo(start, r.records, r.dbs) <==> Durable(before, reqs[|reqs| - 1])
  {
    hide StepOf, Durable, PossibleStep, Fits, OnlyTo, AllLists, GoodRecord, FittedLine;
    var n := |reqs| - 1;
    var before := RunAll(start, reqs[..n], draws[..n]);
    RunRecords(start, reqs[..n], draws[..n]);
    StepIff(before, reqs[n], draws[n]);
    var e := StepOf(before, reqs[n], draws[n]);
    OnlyToMore(start, before.records, before.dbs, e.records, e.dbs);
  }

  /** Loading a file of safe records applies them. */
  lemma FileApplies(databases: nat, records: seq<Record>, result: seq<Keyspace>)
    requires forall r <- records :: GoodRecord(databases, r) && SafeLine(r.line)
    ensures BringsBack(databases, records, result) <==> Applies(Empty(databases), records, result)
  {
    hide Parse, Loads, GoodRecord, SafeLine, Replays, Decode, Applies, Frame, FileOf;
    FrameIsSafe(databases, 0, records);
    LoadFile(Empty(databases), Frame(0, records), result);
    ReplaysIsApplies(Empty(databases), 0, Frame(0, records), result);
    DecodeFrame(databases, 0, records);
  }

  lemma EmptyHasNoLists(databases: nat)
    ensures AllLists(Empty(databases)) && |Empty(databases)| == databases
  {
  }

  /** A run is brought back exactly if its log can be read and leads to its databases only. */
  lemma RebuiltIs(databases: nat, reqs: seq<Request>, draws: seq<seq<Bytes>>)
    requires databases <= MAX_INT64 && |draws| == |reqs| && FittedRun(Empty(databases), reqs, draws)
    ensures var r := RunAll(Empty(databases), reqs, draws);
            Rebuilt(databases, reqs, draws) <==> ReadableLog(r.records) && OnlyTo(Empty(databases), r.records, r.dbs)
  {
    hide FittedRun, RunAll, BringsBack, GoodRecord, SafeLine, FittedLine, Applies, AllLists, Parse, Written, Empty;
    EmptyHasNoLists(databases);
    RunRecords(Empty(databases), reqs, draws);
    var r := RunAll(Empty(databases), reqs, draws);
    FileClosesIff(databases, r.records);
    if ReadableLog(r.records) {
      forall result ensures BringsBack(databases, r.records, result) <==> Applies(Empty(databases), r.records, result) {
        FileApplies(databases, r.records, result);
      }
    }
  }

  /** Loading the file of a durable run into a fresh server comes back exactly if the log can be
      read, and then it has rebuilt the keyspace of every database. */
  lemma ReplayRebuilds(databases: nat, reqs: seq<Request>, draws: seq<seq<Bytes>>)
    requires databases <= MAX_INT64 && |draws| == |reqs|
    requires FittedRun(Empty(databases), reqs, draws) && DurableRun(Empty(databases), reqs, draws)
    ensures Rebuilt(databases, reqs, draws) <==> ReadableLog(RunAll(Empty(databases), reqs, draws).records)
  {
    hide FittedRun, DurableRun, RunAll, Rebuilt, OnlyTo, ReadableLog, AllLists, Empty;
    EmptyHasNoLists(databases);
    RunReplays(Empty(databases), reqs, draws);
    RebuiltIs(databases, reqs, draws);
  }

  /** Every request of the run is durable, and what it logs can be read again. */
  ghost predicate LastingRun(start: seq<Keyspace>, reqs: seq<Request>, draws: seq<seq<Bytes>>)
    requires |draws| == |reqs|
  {
    DurableRun(start, reqs, draws) && ReadableLog(RunAll(start, reqs, draws).records)
  }

  /** The last request of a lasting run. */
  lemma LastingIff(start: seq<Keyspace>, reqs: seq<Request>, draws: seq<seq<Bytes>>)
    requires |draws| == |reqs| > 0
    ensures var n := |reqs| - 1;
            var before := RunAll(start, reqs[..n], draws[..n]);
            LastingRun(start, reqs, draws) <==>
            LastingRun(start, reqs[..n], draws[..n]) && Durable(before, reqs[n]) && Readable(before, reqs[n], draws[n])
  {
    hide SafeLine, Durable, StepOf;
    var n := |reqs| - 1;
    var before, e := RunAll(start, reqs[..n], draws[..n]),
      StepOf(RunAll(start, reqs[..n], draws[..n]), reqs[n], draws[n]);
    assert RunAll(start, reqs, draws).records == before.records + e.records;
  }

  /** After a lasting run, one more request is brought back with it exactly if it is durable and what
      it logs, if anything, has no empty argument before its last. */
  lemma RebuildsIff(databases: nat, reqs: seq<Request>, draws: seq<seq<Bytes>>)
    requires databases <= MAX_INT64 && |draws| == |reqs| > 0 && FittedRun(Empty(databases), reqs, draws)
    requires LastingRun(Empty(databases), reqs[..|reqs| - 1], draws[..|reqs| - 1])
    ensures var n := |reqs| - 1;
            var before := RunAll(Empty(databases), reqs[..n], draws[..n]);
            Rebuilt(databases, reqs, draws) <==> Durable(before, reqs[n]) && Readable(before, reqs[n], draws[n])
  {
    hide StepOf, Durable, PossibleStep, Fits, OnlyTo, AllLists, RunAll, SafeLine, Rebuilt, DurableRun;
    hide ReadableLog, Readable, Empty;
    var n, start := |reqs| - 1, Empty(databases);
    EmptyHasNoLists(databases);
    RunReplays(start, reqs[..n], draws[..n]);
    LastReplaysIff(start, reqs, draws);
    LastingIff(start, reqs, draws);
    LastDurable(start, reqs, draws);
    RebuiltIs(databases, reqs, draws);
  }

  lemma LastDurable(start: seq<Keyspace>, reqs: seq<Request>, draws: seq<seq<Bytes>>)
    requires |draws| == |reqs| > 0
    ensures var n := |reqs| - 1;
            DurableRun(start, reqs, draws) <==>
            DurableRun(start, reqs[..n], draws[..n]) && Durable(RunAll(start, reqs[..n], draws[..n]), reqs[n])
  {
    hide Durable, RunAll;
  }

  /** The file brings the databases back after every request of the run. */
  ghost predicate RebuiltThroughout(databases: nat, reqs: seq<Request>, draws: seq<seq<Bytes>>)
    requires |draws| == |reqs|
  {
    forall n :: 0 <= n <= |reqs| ==> Rebuilt(databases, reqs[..n], draws[..n])
  }

  lemma RebuiltThroughoutStep(databases: nat, reqs: seq<Request>, draws: seq<seq<Bytes>>)
    requires |draws| == |reqs| > 0
    ensures RebuiltThroughout(databases, reqs, draws) <==>
            RebuiltThroughout(databases, reqs[..|reqs| - 1], draws[..|reqs| - 1]) && Rebuilt(databases, reqs, draws)
  {
    hide Rebuilt;
    var n := |reqs| - 1;
    var r, d := reqs[..n], draws[..n];
    assert reqs[..|reqs|] == reqs && draws[..|reqs|] == draws;
    assert forall m :: 0 <= m <= n ==> r[..m] == reqs[..m] && d[..m] == draws[..m];
  }

  /** The file brings back every moment of a run exactly if the run is lasting: every request is
      durable, and no logged line has an empty argument before its last. */
  lemma {:induction false} RebuiltThroughoutIff(databases: nat, reqs: seq<Request>, draws: seq<seq<Bytes>>)
    requires databases <= MAX_INT64 && |draws| == |reqs| && FittedRun(Empty(databases), reqs, draws)
    ensures RebuiltThroughout(databases, reqs, draws) <==> LastingRun(Empty(databases), reqs, draws)
    decreases |reqs|
  {
    hide Durable, PossibleStep, Fits, Readable, Rebuilt, RebuiltThroughout, RunAll, LastingRun, Empty;
    if reqs == [] {
      StartLasts(databases);
    } else {
      var n := |reqs| - 1;
      RebuiltThroughoutIff(databases, reqs[..n], draws[..n]);
      RebuiltThroughoutStep(databases, reqs, draws);
      LastingIff(Empty(databases), reqs, draws);
      if LastingRun(Empty(databases), reqs[..n], draws[..n]) {
        RebuildsIff(databases, reqs, draws);
      }
    }
  }

  lemma StartLasts(databases: nat)
    requires databases <= MAX_INT64
    ensures LastingRun(Empty(databases), [], []) && RebuiltThroughout(databases, [], [])
  {
    hide Rebuilt, Empty;
    ReplayRebuilds(databases, [], []);
    RebuiltAtStart(databases);
  }

  lemma RebuiltAtStart(databases: nat)
    requires Rebuilt(databases, [], [])
    ensures RebuiltThroughout(databases, [], [])
  {
    hide Rebuilt;
    var none: seq<Request> := [];
    var nothing: seq<seq<Bytes>> := [];
    assert none[..0] == none && nothing[..0] == nothing;
  }

  // ---- runs that are not brought back

  /** A command under its own name. */
  lemma Named(c: Command, ks: Keyspace, args: seq<Bytes>, draw: seq<Bytes>)
    requires Callable(c, args)
    ensures var line := [LogName(c)] + args;
      && !IsSelect(line)
      && LineDraws(ks, line) == DrawsOf(c, ks, args)
      && var e := Commands.Run(c, ks, args, draw);
         ExecBy(ks, line, draw) == (e, if e.logged then [line] else [])
  {
    hide Commands.Run, Lookup, ToLower, LogName, Arity, DrawsOf;
    LoggedDraws(ks, c, args);
    LogNameFinds(c);
    SelectIsNotACommand();
    var line := [LogName(c)] + args;
    assert line[1..] == args && line[0] == LogName(c);
  }

  /** The first request of a server with one database. */
  lemma FirstRequest(line: CmdLine, draw: seq<Bytes>)
    requires !IsSelect(line) && Possible(map[], line, draw)
    ensures var r := RunAll(Empty(1), [Request(0, line)], [draw]);
            var e := ExecBy(map[], line, draw);
      && PossibleStep(RunAll(Empty(1), [], []), Request(0, line), draw)
      && StepOf(RunAll(Empty(1), [], []), Request(0, line), draw).records == r.records
      && r == Ran([e.0.ks], map[0 := 0], if e.1 == [] then [] else [Record(0, e.1[0])])
  {
    hide ExecBy, IsSelect, Possible;
    var reqs := [Request(0, line)];
    assert reqs[..0] == [] && [draw][..0] == [] && Empty(1) == [map[]];
    var e := ExecBy(map[], line, draw);
    assert Empty(1)[0 := e.0.ks] == [e.0.ks];
    assert map[][0 := 0] == map[0 := 0];
  }

  lemma FirstGetSet(k: Bytes, v: Bytes)
    ensures Commands.Run(OnString(CGetSet), map[], [k, v], []) == Effect(map[k := Str(Some(v))], Plain(NullBulk), false)
    ensures DrawsOf(OnString(CGetSet), map[], [k, v]) == NoDraw
  {
  }

  /** GETSET of a missing key: it is in memory, and what the file brings back is empty. */
  lemma GetSetIsLost(k: Bytes, v: Bytes)
    ensures var r := RunAll(Empty(1), [Request(0, ["getset", k, v])], [[]]);
      && r.dbs == [map[k := Str(Some(v))]]
      && forall result :: BringsBack(1, r.records, result) <==> result == [map[]]
  {
    hide ExecBy, IsSelect, BringsBack, Commands.Run, RunAll, DrawsOf;
    FirstGetSet(k, v);
    Named(OnString(CGetSet), map[], [k, v], []);
    var line: CmdLine := ["getset", k, v];
    assert [LogName(OnString(CGetSet))] + [k, v] == line;
    FirstRequest(line, []);
    assert Empty(1) == [map[]];
    forall result ensures BringsBack(1, [], result) <==> result == [map[]] {
      FileApplies(1, [], result);
    }
  }

  /** The run is possible and ends with some databases, and its file can bring back others. */
  ghost predicate EndsAs(databases: nat, reqs: seq<Request>, draws: seq<seq<Bytes>>, dbs: seq<Keyspace>,
                         back: seq<Keyspace>) {
    && |draws| == |reqs| && FittedRun(Empty(databases), reqs, draws)
    && var r := RunAll(Empty(databases), reqs, draws);
       r.dbs == dbs && BringsBack(databases, r.records, back)
  }

  const SADD: CmdLine := ["sadd", "s", "a", "b"]
  const SPOP: CmdLine := ["spop", "s"]
  const POP_RUN: seq<Request> := [Request(0, SADD), Request(0, SPOP)]
  const POP_DRAWS: seq<seq<Bytes>> := [[], ["a"]]
  const PAIR: Keyspace := map["s" := Set({"a", "b"})]

  lemma AddedPair()
    ensures var line := [LogName(OnSet(CSAdd))] + ["s", "a", "b"];
      && line == SADD && !IsSelect(SADD) && Possible(map[], SADD, [])
      && ExecBy(map[], SADD, []) == (Done(PAIR, Int(2)), [SADD])
  {
    hide ExecBy, IsSelect, Lookup, ToLower, RunString, RunKey, RunList, ExecAlgebra, ExecStore, WrongType, ParseInt;
    var s: seq<Bytes> := ["a", "b"];
    Named(OnSet(CSAdd), map[], ["s", "a", "b"], []);
    assert [LogName(OnSet(CSAdd))] + ["s", "a", "b"] == SADD;
    assert ["s", "a", "b"][1..] == s;
    AddedSet(s);
  }

  lemma AddedSet(s: seq<Bytes>)
    requires s == ["a", "b"]
    ensures {} + SetOf(s) == {"a", "b"} && |{} + SetOf(s)| == 2
  {
    assert s[0] == "a" && s[1] == "b";
    assert SetOf(s) == {"a", "b"};
  }

  lemma PoppedOne(one: Bytes, other: Bytes)
    requires {one, other} == {"a", "b"}
    ensures !IsSelect(SPOP) && Possible(PAIR, SPOP, [one])
    ensures var e := ExecBy(PAIR, SPOP, [one]); e.0.ks == map["s" := Set({other})] && e.1 == [SPOP]
  {
    hide ExecBy, IsSelect, Lookup, ToLower, RunString, RunKey, RunList, ExecAlgebra, ExecStore, WrongType, ParseInt;
    Named(OnSet(CSPop), PAIR, ["s"], [one]);
    assert [LogName(OnSet(CSPop))] + ["s"] == SPOP;
    PoppedSet(one, other);
  }

  lemma PoppedSet(one: Bytes, other: Bytes)
    requires {one, other} == {"a", "b"}
    ensures one in {"a", "b"} && |{"a", "b"}| == 2 && {"a", "b"} - SetOf([one]) == {other}
  {
    var both: set<Bytes> := {"a", "b"};
    assert one in {one, other} && other in {one, other} && "a" in both && "b" in both;
    assert one != other;
    assert SetOf([one]) == {one};
  }

  lemma SafePair()
    ensures SafeLine(SADD) && SafeLine(SPOP) && FittedLine(SADD) && FittedLine(SPOP)
  {
    assert Present(SADD) == [Some("sadd"), Some("s"), Some("a"), Some("b")];
    assert Present(SPOP) == [Some("spop"), Some("s")];
  }

  /** SPOP of some of the members: the file can bring back another draw. */
  lemma SPopIsRedrawn()
    ensures EndsAs(1, POP_RUN, POP_DRAWS, [map["s" := Set({"b"})]], [map["s" := Set({"a"})]])
  {
    hide ExecBy, IsSelect, BringsBack, Possible, SafeLine, FittedLine, Applies;
    AddedPair();
    PoppedOne("a", "b");
    PoppedOne("b", "a");
    SafePair();
    TwoRequests(SADD, SPOP, PAIR, [], ["a"]);
    var records := [Record(0, SADD), Record(0, SPOP)];
    AppliesTwo(SADD, SPOP, PAIR, [], ["b"]);
    FileApplies(1, records, [map["s" := Set({"a"})]]);
  }

  /** Two logged requests, one after the other. */
  lemma TwoRequests(first: CmdLine, second: CmdLine, mid: Keyspace, a: seq<Bytes>, b: seq<Bytes>)
    requires !IsSelect(first) && Possible(map[], first, a) && FittedLine(first)
    requires ExecBy(map[], first, a).0.ks == mid && ExecBy(map[], first, a).1 == [first]
    requires !IsSelect(second) && Possible(mid, second, b) && FittedLine(second)
    requires ExecBy(mid, second, b).1 == [second]
    ensures var reqs, draws := [Request(0, first), Request(0, second)], [a, b];
            var r := RunAll(Empty(1), reqs, draws);
            && FittedRun(Empty(1), reqs, draws) && r.dbs == [ExecBy(mid, second, b).0.ks]
            && r.records == [Record(0, first), Record(0, second)]
  {
    hide ExecBy, IsSelect, Possible, FittedLine;
    var p, q := Request(0, first), Request(0, second);
    FirstRequest(first, a);
    assert [p, q][..1] == [p] && [a, b][..1] == [a];
    assert [p][..0] == [] && [a][..0] == [];
    assert FittedRun(Empty(1), [], []);
    assert FittedRun(Empty(1), [p], [a]);
    var ks := ExecBy(mid, second, b).0.ks;
    assert [mid][0 := ks] == [ks];
    assert [Record(0, first)] + [Record(0, second)] == [Record(0, first), Record(0, second)];
  }

  lemma AppliesTwo(first: CmdLine, second: CmdLine, mid: Keyspace, a: seq<Bytes>, b: seq<Bytes>)
    requires Possible(map[], first, a) && ExecBy(map[], first, a).0.ks == mid && Possible(mid, second, b)
    ensures Applies(Empty(1), [Record(0, first), Record(0, second)], [ExecBy(mid, second, b).0.ks])
  {
    hide ExecBy, Possible, Applies;
    var ks := ExecBy(mid, second, b).0.ks;
    assert Empty(1) == [map[]] && [map[]][0 := mid] == [mid] && [mid][0 := ks] == [ks];
    NothingApplied([ks]);
    AppliesFirst([mid], Record(0, second), [], b, [ks]);
    assert [Record(0, second)] + [] == [Record(0, second)];
    AppliesFirst([map[]], Record(0, first), [Record(0, second)], a, [ks]);
    assert [Record(0, first)] + [Record(0, second)] == [Record(0, first), Record(0, second)];
  }

  lemma AppliesFirst(dbs: seq<Keyspace>, r: Record, rest: seq<Record>, draw: seq<Bytes>, result: seq<Keyspace>)
    requires var i := r.dbIndex;
      && 0 <= i < |dbs| && Possible(dbs[i], r.line, draw)
      && Applies(dbs[i := ExecBy(dbs[i], r.line, draw).0.ks], rest, result)
    ensures Applies(dbs, [r] + rest, result)
  {
    hide ExecBy, Possible;
    assert ([r] + rest)[0] == r && ([r] + rest)[1..] == rest;
  }

  const GAP: CmdLine := ["set", "", "v"]

  /** What `set`, two spaces and `v`, sent as an inline command, are read as. */
  lemma InlineGap()
    ensures Parse("set  v\r\n") == Outcome([Data(MultiBulk(Present(GAP))), IoErr(true)], Closed)
  {
    hide Parse, Present;
    assert GAP[1..][1..] == ["v"] && TextLines.Joined(["v"]) == "v" && TextLines.Joined(GAP[1..]) == " v";
    assert TextLines.Joined(GAP) == "set  v";
    assert "set  v" + "\r\n" == "set  v\r\n";
    TextLines.InlineCommand(GAP, []);
  }

  lemma PlainSet(ks: Keyspace, k: Bytes, v: Bytes)
    ensures var line: CmdLine := ["set", k, v];
      && !IsSelect(line) && LineDraws(ks, line) == NoDraw && Possible(ks, line, [])
      && ExecBy(ks, line, []) == (Done(ks[k := Str(Some(v))], OkReply()), [line])
  {
    hide ExecBy, IsSelect, Lookup, ToLower, RunSet, RunKey, RunList;
    Named(OnString(CSet), ks, [k, v], []);
    assert [LogName(OnString(CSet))] + [k, v] == ["set", k, v];
    assert [k, v][2..] == [];
  }

  /** A durable run after which no server comes up any more: the file of this request ends the
      parser, and loading waits for ever. */
  lemma GapNeverLoads()
    ensures var reqs, draws := [Request(0, GAP)], [[]];
      && FittedRun(Empty(1), reqs, draws) && DurableRun(Empty(1), reqs, draws)
      && var r := RunAll(Empty(1), reqs, draws);
         r.dbs == [map["" := Str(Some("v"))]] && Parse(Written(0, r.records)).ending == Panicked
  {
    hide ExecBy, IsSelect, Possible, Parse, Written, SafeLine, FittedLine, Keepable, GoodRecord, RunOne;
    PlainSet(map[], "", "v");
    FirstRequest(GAP, []);
    OneRequest(GAP, []);
    SetLasts(map[], "", "v");
    GapIsFitted();
    FileClosesIff(1, [Record(0, GAP)]);
  }

  lemma GapIsFitted()
    ensures FittedLine(GAP) && !SafeLine(GAP) && GoodRecord(1, Record(0, GAP))
  {
    assert Present(GAP) == [Some("set"), Some(""), Some("v")];
    assert !PlainArg(Some(""));
    PlainSet(map[], "", "v");
  }

  /** SET under its own name is durable. */
  lemma SetLasts(ks: Keyspace, k: Bytes, v: Bytes)
    ensures Keepable(ks, ["set", k, v])
  {
    hide Lookup, ToLower;
    LogNameFinds(OnString(CSet));
    assert LogName(OnString(CSet)) == "set";
  }

  lemma OneRequest(line: CmdLine, draw: seq<Bytes>)
    ensures var reqs, draws, start := [Request(0, line)], [draw], RunAll(Empty(1), [], []);
      && (FittedRun(Empty(1), reqs, draws) <==> PossibleStep(start, reqs[0], draw) && Fits(start, reqs[0], draw))
      && (DurableRun(Empty(1), reqs, draws) <==> Durable(start, reqs[0]))
  {
    hide PossibleStep, Fits, Durable;
    var reqs := [Request(0, line)];
    assert reqs[..0] == [] && [draw][..0] == [];
    assert FittedRun(Empty(1), [], []) && DurableRun(Empty(1), [], []);
  }

  /** An argument that starts with `$`, which the premise on what is logged leaves out: memory holds
      `$0` and the file brings back an empty string. */
  lemma DollarIsLost(k: Bytes)
    requires PlainArg(Some(k))
    ensures var r := RunAll(Empty(1), [Request(0, ["set", k, "$0"])], [[]]);
      && r.dbs == [map[k := Str(Some("$0"))]] && BringsBack(1, r.records, [map[k := Str(Some([]))]])
  {
    hide ExecBy, IsSelect, Possible, Parse, RunAll, PlainArg, Loads;
    var line: CmdLine := ["set", k, "$0"];
    var back: CmdLine := ["set", k, ""];
    PlainSet(map[], k, "$0");
    PlainSet(map[], k, "");
    FirstRequest(line, []);
    OneLine(line);
    assert PlainArg(Some("set")) by { LogNameIsPlain(); }
    DollarZeroIsEmpty(["set", k], []);
    assert ["set", k] + ["$0"] == line && ["set", k] + [[]] == back;
    NothingPrinted();
    assert PrintAll([]) == [] && ToBytes(AsReply(line)) + [] == ToBytes(AsReply(line));
    assert [Data(MultiBulk(Present(back)))] + [IoErr(true)] == [Data(MultiBulk(Present(back))), IoErr(true)];
    LoadsOne(back, [map[k := Str(Some([]))]]);
  }

  lemma LogNameIsPlain()
    ensures PlainArg(Some("set"))
  {
  }

  /** The file of one record of database 0. */
  lemma OneLine(line: CmdLine)
    ensures Written(0, [Record(0, line)]) == ToBytes(AsReply(line))
  {
    hide ToBytes, AsReply;
    var records := [Record(0, line)];
    assert records[1..] == [] && Frame(0, records) == [] + [line] + [] == [line];
    FileOfOne(line);
  }

  /** Loading one command that draws nothing. */
  lemma LoadsOne(line: CmdLine, result: seq<Keyspace>)
    requires !IsSelect(line) && Possible(map[], line, []) && result == [ExecBy(map[], line, []).0.ks]
    ensures Loads(Empty(1), 0, [Data(MultiBulk(Present(line))), IoErr(true)], result)
  {
    hide ExecBy, IsSelect, Possible;
    FilledPresent(line);
    var payloads := [Data(MultiBulk(Present(line))), IoErr(true)];
    assert payloads[1..] == [IoErr(true)];
    assert Empty(1) == [map[]] && [map[]][0 := result[0]] == result;
    assert PossibleOn(Empty(1), 0, line, []);
    var e := ExecOn(Empty(1), 0, line, []);
    assert e.dbs == result && Loads(e.dbs, e.selected, payloads[1..], result);
  }
}
