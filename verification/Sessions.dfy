/** Several sessions of a server on one append-only file (aof/aof.go): a restarted writer takes it
    that whoever reads the file has database 0 selected. */
module Sessions {
  import opened Bytes
  import opened Reply
  import opened Commands
  import opened Standalone
  import opened LogCompleteness
  import opened Parser
  import opened RoundTrip
  import opened Aof
  import opened Recovery

  /** Loading the file of these lines comes back, and ends with these databases only. */
  ghost predicate LoadsOnly(databases: nat, lines: seq<CmdLine>, target: seq<Keyspace>) {
    && Parse(FileOf(lines)).ending == Closed
    && forall result :: Loads(Empty(databases), 0, Parse(FileOf(lines)).payloads, result) <==> result == target
  }

  /** The database that reading the lines leaves selected. */
  function EndsIn(databases: nat, selected: int, lines: seq<CmdLine>): int
    decreases |lines|
  {
    if lines == [] then selected else EndsIn(databases, Moved(databases, selected, lines[0]), lines[1..])
  }

  /** What a session logs, as a reader sees it who has another database selected: the records up to
      the first SELECT go there. */
  function Misread(selected: int, records: seq<Record>): seq<Record> {
    if records == [] || records[0].dbIndex != 0 then records
    else [Record(selected, records[0].line)] + Misread(selected, records[1..])
  }

  /** The records before the first SELECT. */
  function Leading(records: seq<Record>): seq<Record> {
    if records == [] || records[0].dbIndex != 0 then [] else [records[0]] + Leading(records[1..])
  }

  predicate AllZero(records: seq<Record>) {
    forall r <- records :: r.dbIndex == 0
  }

  /** The line changes nothing, whatever it draws. */
  ghost predicate Idle(ks: Keyspace, line: CmdLine) {
    forall draw :: Possible(ks, line, draw) ==> ExecBy(ks, line, draw).0.ks == ks
  }

  /** It makes no difference that what comes before the first SELECT is executed on this database
      instead of database 0. */
  ghost predicate Quiet(dbs: seq<Keyspace>, selected: nat, records: seq<Record>)
    requires selected < |dbs|
  {
    selected == 0 || forall r <- Leading(records) :: Idle(dbs[0], r.line) && Idle(dbs[selected], r.line)
  }

  // ---- reading on

  lemma {:induction false} DecodeMore(databases: nat, selected: int, a: seq<CmdLine>, b: seq<CmdLine>)
    ensures Decode(databases, selected, a + b) ==
            Decode(databases, selected, a) + Decode(databases, EndsIn(databases, selected, a), b)
    decreases |a|
  {
    hide IsSelect, Moved;
    var more := Decode(databases, EndsIn(databases, selected, a), b);
    if a == [] {
      assert a + b == b && [] + more == more;
    } else {
      assert (a + b)[0] == a[0] && (a + b)[1..] == a[1..] + b;
      DecodeMore(databases, Moved(databases, selected, a[0]), a[1..], b);
      Assoc(if IsSelect(a[0]) then [] else [Record(selected, a[0])],
            Decode(databases, Moved(databases, selected, a[0]), a[1..]), more);
    }
  }

  /** A reader who has a database selected takes a new session's lines for the misread records. */
  lemma {:induction false} MisreadIs(databases: nat, selected: int, records: seq<Record>)
    requires forall r <- records :: GoodRecord(databases, r)
    ensures Decode(databases, selected, Frame(0, records)) == Misread(selected, records)
    decreases |records|
  {
    hide IsSelect, Moved, SelectLine;
    if records != [] {
      var r, rest := records[0], records[1..];
      assert records == [r] + rest && r in records;
      if r.dbIndex == 0 {
        MisreadIs(databases, selected, rest);
        NotSelectStays(databases, selected, r.line);
        var lines := [r.line] + Frame(0, rest);
        assert [] + [r.line] + Frame(0, rest) == lines && lines[1..] == Frame(0, rest);
      } else {
        OwnSelect(databases, selected, records);
        DecodeFrame(databases, 0, records);
      }
    }
  }

  /** Loading safe lines and then a session's records applies first the ones and then the others. */
  lemma LoadsMore(databases: nat, lines: seq<CmdLine>, dbs: seq<Keyspace>, records: seq<Record>, target: seq<Keyspace>)
    requires forall l <- lines :: SafeLine(l)
    requires forall r <- records :: GoodRecord(databases, r) && SafeLine(r.line)
    requires LoadsOnly(databases, lines, dbs)
    ensures LoadsOnly(databases, lines + Frame(0, records), target) <==>
            OnlyTo(dbs, Misread(EndsIn(databases, 0, lines), records), target)
  {
    hide SafeLine, GoodRecord, LoadsOnly, OnlyTo, Frame, Misread, EndsIn, Decode;
    FrameIsSafe(databases, 0, records);
    MisreadIs(databases, EndsIn(databases, 0, lines), records);
    DecodeMore(databases, 0, lines, Frame(0, records));
    LoadsLines(databases, lines, dbs);
    LoadsLines(databases, lines + Frame(0, records), target);
    OnlyToMore(Empty(databases), Decode(databases, 0, lines), dbs,
               Decode(databases, EndsIn(databases, 0, lines), Frame(0, records)), target);
  }

  lemma LoadsLines(databases: nat, lines: seq<CmdLine>, target: seq<Keyspace>)
    requires forall l <- lines :: SafeLine(l)
    ensures LoadsOnly(databases, lines, target) <==> OnlyTo(Empty(databases), Decode(databases, 0, lines), target)
  {
    hide SafeLine, Parse, PrintAll, Loads, Replays, Applies, Decode, Images, AsReply, WireSafe;
    forall i | 0 <= i < |lines| ensures WireSafe(AsReply(lines[i])) {
      LineAsReply(lines[i]);
    }
    ParsePrintAll(AsReplies(lines));
    EmptyHasNoLists(databases);
    forall result
      ensures Loads(Empty(databases), 0, Parse(FileOf(lines)).payloads, result)
              <==> Applies(Empty(databases), Decode(databases, 0, lines), result)
    {
      LoadFile(Empty(databases), lines, result);
      ReplaysIsApplies(Empty(databases), 0, lines, result);
    }
  }

  // ---- one more record

  lemma {:induction false} MisreadMore(selected: int, records: seq<Record>, r: Record)
    ensures Misread(selected, records + [r]) ==
            Misread(selected, records) + [if AllZero(records) && r.dbIndex == 0 then Record(selected, r.line) else r]
    ensures Leading(records + [r]) == if AllZero(records) && r.dbIndex == 0 then records + [r] else Leading(records)
    ensures AllZero(records) ==> Leading(records) == records
    decreases |records|
  {
    if records == [] {
      assert [] + [r] == [r] && [r][1..] == [];
      assert Misread(selected, []) == [] && Leading([]) == [];
    } else {
      var rest := records[1..];
      assert (records + [r])[0] == records[0] && (records + [r])[1..] == rest + [r] && records == [records[0]] + rest;
      MisreadMore(selected, rest, r);
    }
  }

  lemma {:induction false} MisreadAtZero(records: seq<Record>)
    ensures Misread(0, records) == records
  {
    if records != [] {
      MisreadAtZero(records[1..]);
    }
  }

  // ---- idle lines

  lemma {:induction false} SomeSample(members: set<Bytes>, n: nat) returns (draw: seq<Bytes>)
    requires n <= |members|
    ensures Commands.Fits(Sample(members, n), draw)
    decreases n
  {
    if n == 0 {
      return [];
    }
    var x :| x in members;
    draw := SomeSample(members - {x}, n - 1);
    draw := [x] + draw;
  }

  lemma DrawsFit(ks: Keyspace, line: CmdLine)
    ensures var d := LineDraws(ks, line); d.Sample? ==> d.n <= |d.members|
  {
    hide Lookup, ToLower, ParseInt, GetAsSet, Arity;
  }

  /** Every line can draw something. */
  lemma AnyDraw(ks: Keyspace, line: CmdLine) returns (draw: seq<Bytes>)
    ensures Possible(ks, line, draw)
  {
    hide LineDraws;
    match LineDraws(ks, line)
    case NoDraw => draw := [];
    case Sample(members, n) =>
      DrawsFit(ks, line);
      draw := SomeSample(members, n);
    case Repeats(members, n) =>
      var x: Bytes := [];
      if members != {} {
        x :| x in members;
      }
      draw := seq(n, _ => x);
  }

  /** One record leaves the databases as they are exactly if its line is idle. */
  lemma IdleIff(dbs: seq<Keyspace>, r: Record)
    requires 0 <= r.dbIndex < |dbs|
    ensures OnlyTo(dbs, [r], dbs) <==> Idle(dbs[r.dbIndex], r.line)
  {
    hide ExecBy, Possible;
    var i, line := r.dbIndex, r.line;
    assert [r][1..] == [];
    assert forall result ::
      Applies(dbs, [r], result) <==>
      exists draw :: Possible(dbs[i], line, draw) && dbs[i := ExecBy(dbs[i], line, draw).0.ks] == result;
    if OnlyTo(dbs, [r], dbs) {
      forall draw | Possible(dbs[i], line, draw) ensures ExecBy(dbs[i], line, draw).0.ks == dbs[i] {
        assert Applies(dbs, [r], dbs[i := ExecBy(dbs[i], line, draw).0.ks]);
      }
    }
    if Idle(dbs[i], line) {
      var draw := AnyDraw(dbs[i], line);
      assert dbs[i := ExecBy(dbs[i], line, draw).0.ks] == dbs;
    }
  }

  /** A record changes its own database only. */
  lemma ChangesOwn(dbs: seq<Keyspace>, r: Record, target: seq<Keyspace>)
    requires 0 <= r.dbIndex < |dbs| && OnlyTo(dbs, [r], target)
    ensures |target| == |dbs| && forall i :: 0 <= i < |dbs| && i != r.dbIndex ==> target[i] == dbs[i]
  {
    hide ExecBy, Possible;
    assert [r][1..] == [] && Applies(dbs, [r], target);
  }

  /** The same line on two databases ends alike exactly if it is idle on both. */
  lemma ElsewhereIff(dbs: seq<Keyspace>, line: CmdLine, selected: nat, target: seq<Keyspace>)
    requires 0 < selected < |dbs| && OnlyTo(dbs, [Record(0, line)], target)
    ensures OnlyTo(dbs, [Record(selected, line)], target) <==> Idle(dbs[0], line) && Idle(dbs[selected], line)
  {
    hide OnlyTo, Idle;
    IdleIff(dbs, Record(0, line));
    IdleIff(dbs, Record(selected, line));
    ChangesOwn(dbs, Record(0, line), target);
    if OnlyTo(dbs, [Record(selected, line)], target) {
      ChangesOwn(dbs, Record(selected, line), target);
      assert target == dbs;
    }
    if Idle(dbs[0], line) {
      OneTarget(dbs, [Record(0, line)], dbs, target);
    }
  }

  lemma OneTarget(dbs: seq<Keyspace>, records: seq<Record>, a: seq<Keyspace>, b: seq<Keyspace>)
    requires OnlyTo(dbs, records, a) && OnlyTo(dbs, records, b)
    ensures a == b
  {
    hide Applies;
    assert Applies(dbs, records, a);
  }

  /** Idle lines of one database change nothing, however many. */
  lemma {:induction false} IdleRun(dbs: seq<Keyspace>, records: seq<Record>)
    requires dbs != [] && AllZero(records) && forall r <- records :: Idle(dbs[0], r.line)
    ensures OnlyTo(dbs, records, dbs)
    decreases |records|
  {
    hide OnlyTo, Idle;
    if records == [] {
      NothingApplied(dbs);
    } else {
      var r := records[0];
      assert records == [r] + records[1..];
      IdleIff(dbs, r);
      IdleRun(dbs, records[1..]);
      OnlyToMore(dbs, [r], dbs, records[1..], dbs);
    }
  }

  // ---- a session after others

  /** One more record of a session that has been read right so far. */
  lemma RecordIff(start: seq<Keyspace>, selected: nat, records: seq<Record>, dbs: seq<Keyspace>, r: Record,
                  target: seq<Keyspace>)
    requires 0 < selected < |start| && Quiet(start, selected, records)
    requires OnlyTo(start, records, dbs) && OnlyTo(start, Misread(selected, records), dbs) && OnlyTo(dbs, [r], target)
    ensures OnlyTo(start, Misread(selected, records + [r]), target) <==> Quiet(start, selected, records + [r])
  {
    hide OnlyTo, Idle;
    MisreadMore(selected, records, r);
    if AllZero(records) && r.dbIndex == 0 {
      IdleRun(start, records);
      OneTarget(start, records, start, dbs);
      ElsewhereIff(start, r.line, selected, target);
      OnlyToMore(start, Misread(selected, records), dbs, [Record(selected, r.line)], target);
      assert forall x :: x in records + [r] <==> x in records || x == r;
      assert r == Record(0, r.line);
    } else {
      OnlyToMore(start, Misread(selected, records), dbs, [r], target);
    }
  }

  /** The records of every moment of the run, read from this database, lead where the run is. */
  ghost predicate ReadThroughout(start: seq<Keyspace>, selected: nat, reqs: seq<Request>, draws: seq<seq<Bytes>>)
    requires |draws| == |reqs|
  {
    forall n :: 0 <= n <= |reqs| ==>
      var r := RunAll(start, reqs[..n], draws[..n]); OnlyTo(start, Misread(selected, r.records), r.dbs)
  }

  lemma ReadThroughoutStep(start: seq<Keyspace>, selected: nat, reqs: seq<Request>, draws: seq<seq<Bytes>>)
    requires |draws| == |reqs| > 0
    ensures var r := RunAll(start, reqs, draws);
            ReadThroughout(start, selected, reqs, draws) <==>
            ReadThroughout(start, selected, reqs[..|reqs| - 1], draws[..|reqs| - 1])
            && OnlyTo(start, Misread(selected, r.records), r.dbs)
  {
    hide RunAll, OnlyTo, Misread;
    var n := |reqs| - 1;
    var r, d := reqs[..n], draws[..n];
    assert reqs[..|reqs|] == reqs && draws[..|reqs|] == draws;
    assert forall m :: 0 <= m <= n ==> r[..m] == reqs[..m] && d[..m] == draws[..m];
  }

  lemma QuietBefore(dbs: seq<Keyspace>, selected: nat, records: seq<Record>, r: Record)
    requires selected < |dbs| && Quiet(dbs, selected, records + [r])
    ensures Quiet(dbs, selected, records)
  {
    hide Idle;
    MisreadMore(selected, records, r);
    assert forall x :: x in records ==> x in records + [r];
  }

  /** What one request of a durable run adds to the log. */
  lemma LastRecord(start: seq<Keyspace>, reqs: seq<Request>, draws: seq<seq<Bytes>>)
    requires |start| <= MAX_INT64 && AllLists(start) && |draws| == |reqs| > 0
    requires FittedRun(start, reqs, draws) && DurableRun(start, reqs, draws)
    ensures var n := |reqs| - 1;
            var before, after := RunAll(start, reqs[..n], draws[..n]), RunAll(start, reqs, draws);
            var more := StepOf(before, reqs[n], draws[n]).records;
            && FittedRun(start, reqs[..n], draws[..n]) && DurableRun(start, reqs[..n], draws[..n])
            && |more| <= 1 && after.records == before.records + more && OnlyTo(before.dbs, more, after.dbs)
  {
    hide ExecBy, Durable, PossibleStep, Recovery.Fits, OnlyTo, AllLists, ExecSelect;
    var n := |reqs| - 1;
    var before := RunAll(start, reqs[..n], draws[..n]);
    RunRecords(start, reqs[..n], draws[..n]);
    StepIff(before, reqs[n], draws[n]);
    SelectLogsNothing(before.dbs, SelectedBy(before.sessions, reqs[n].conn), reqs[n].line);
  }

  lemma SelectLogsNothing(dbs: seq<Keyspace>, selected: int, line: CmdLine)
    ensures ExecSelect(dbs, selected, line).records == []
  {
  }

  /** One more request after a session that has been read right so far. */
  lemma RequestIff(start: seq<Keyspace>, selected: nat, reqs: seq<Request>, draws: seq<seq<Bytes>>)
    requires selected < |start| <= MAX_INT64 && AllLists(start) && |draws| == |reqs| > 0
    requires FittedRun(start, reqs, draws) && DurableRun(start, reqs, draws)
    requires var r := RunAll(start, reqs[..|reqs| - 1], draws[..|reqs| - 1]);
             OnlyTo(start, Misread(selected, r.records), r.dbs) && Quiet(start, selected, r.records)
    ensures var r := RunAll(start, reqs, draws);
            OnlyTo(start, Misread(selected, r.records), r.dbs) <==> Quiet(start, selected, r.records)
  {
    hide RunAll, FittedRun, DurableRun, OnlyTo, AllLists, StepOf, Misread, Quiet;
    var n := |reqs| - 1;
    var before, r := RunAll(start, reqs[..n], draws[..n]), RunAll(start, reqs, draws);
    LastRecord(start, reqs, draws);
    RunReplays(start, reqs[..n], draws[..n]);
    RunReplays(start, reqs, draws);
    var more := StepOf(before, reqs[n], draws[n]).records;
    if selected == 0 {
      MisreadAtZero(r.records);
      QuietAtZero(start, r.records);
    } else if more == [] {
      assert before.records + [] == before.records;
      NothingApplied(before.dbs);
      OneTarget(before.dbs, [], before.dbs, r.dbs);
    } else {
      assert more == [more[0]];
      RecordIff(start, selected, before.records, before.dbs, more[0], r.dbs);
    }
  }

  lemma QuietAtZero(dbs: seq<Keyspace>, records: seq<Record>)
    requires dbs != []
    ensures Quiet(dbs, 0, records)
  {
  }

  /** The records before the first SELECT are the same or more after one more request. */
  lemma QuietPrefix(start: seq<Keyspace>, selected: nat, reqs: seq<Request>, draws: seq<seq<Bytes>>)
    requires selected < |start| <= MAX_INT64 && AllLists(start) && |draws| == |reqs| > 0
    requires FittedRun(start, reqs, draws) && DurableRun(start, reqs, draws)
    requires Quiet(start, selected, RunAll(start, reqs, draws).records)
    ensures Quiet(start, selected, RunAll(start, reqs[..|reqs| - 1], draws[..|reqs| - 1]).records)
  {
    hide RunAll, FittedRun, DurableRun, OnlyTo, AllLists, StepOf, Quiet;
    LastRecord(start, reqs, draws);
    var n := |reqs| - 1;
    var before := RunAll(start, reqs[..n], draws[..n]);
    var more := StepOf(before, reqs[n], draws[n]).records;
    if more == [] {
      assert before.records + more == before.records;
    } else {
      assert more == [more[0]];
      QuietBefore(start, selected, before.records, more[0]);
    }
  }

  /** The records of a durable run, read from another database, lead where the run is at each of its
      requests exactly if it makes no difference which of the two databases they start on. */
  lemma {:induction false} ReadThroughoutIff(start: seq<Keyspace>, selected: nat, reqs: seq<Request>,
                                             draws: seq<seq<Bytes>>)
    requires selected < |start| <= MAX_INT64 && AllLists(start) && |draws| == |reqs|
    requires FittedRun(start, reqs, draws) && DurableRun(start, reqs, draws)
    ensures ReadThroughout(start, selected, reqs, draws) <==> Quiet(start, selected, RunAll(start, reqs, draws).records)
    decreases |reqs|
  {
    hide RunAll, FittedRun, DurableRun, OnlyTo, AllLists, Misread, Quiet, ReadThroughout;
    if reqs == [] {
      ReadAtStart(start, selected);
    } else {
      var n := |reqs| - 1;
      LastRecord(start, reqs, draws);
      ReadThroughoutIff(start, selected, reqs[..n], draws[..n]);
      ReadThroughoutStep(start, selected, reqs, draws);
      if Quiet(start, selected, RunAll(start, reqs, draws).records) {
        QuietPrefix(start, selected, reqs, draws);
      }
      if ReadThroughout(start, selected, reqs[..n], draws[..n]) {
        ReadAtEnd(start, selected, reqs[..n], draws[..n]);
        RequestIff(start, selected, reqs, draws);
      }
    }
  }

  lemma ReadAtStart(start: seq<Keyspace>, selected: nat)
    requires selected < |start|
    ensures Quiet(start, selected, RunAll(start, [], []).records) && ReadThroughout(start, selected, [], [])
  {
    hide OnlyTo, Idle, RunOne;
    var none: seq<Request> := [];
    var nothing: seq<seq<Bytes>> := [];
    assert none[..0] == none && nothing[..0] == nothing;
    NothingApplied(start);
  }

  lemma ReadAtEnd(start: seq<Keyspace>, selected: nat, reqs: seq<Request>, draws: seq<seq<Bytes>>)
    requires |draws| == |reqs| && ReadThroughout(start, selected, reqs, draws)
    ensures var r := RunAll(start, reqs, draws); OnlyTo(start, Misread(selected, r.records), r.dbs)
  {
    hide RunAll, OnlyTo, Misread;
    assert reqs[..|reqs|] == reqs && draws[..|reqs|] == draws;
  }

  /** Loading the file of the earlier lines and what the session has logged so far brings the
      databases back, and no others, after every request of the session. */
  ghost predicate LoadsThroughout(lines: seq<CmdLine>, start: seq<Keyspace>, reqs: seq<Request>, draws: seq<seq<Bytes>>)
    requires |draws| == |reqs|
  {
    forall n :: 0 <= n <= |reqs| ==>
      var r := RunAll(start, reqs[..n], draws[..n]); LoadsOnly(|start|, lines + Frame(0, r.records), r.dbs)
  }

  /** The records of every moment of a lasting run can be written and read. */
  lemma {:induction false} PrefixIsGood(start: seq<Keyspace>, reqs: seq<Request>, draws: seq<seq<Bytes>>, n: nat)
    requires |start| <= MAX_INT64 && AllLists(start) && n <= |reqs| == |draws|
    requires FittedRun(start, reqs, draws) && LastingRun(start, reqs, draws)
    ensures forall r <- RunAll(start, reqs[..n], draws[..n]).records :: GoodRecord(|start|, r) && SafeLine(r.line)
    decreases |reqs|
  {
    hide RunAll, AllLists, GoodRecord, SafeLine, FittedLine, DurableRun, Durable, PossibleStep, Recovery.Fits, Readable;
    if n == |reqs| {
      assert reqs[..n] == reqs && draws[..n] == draws;
      RunRecords(start, reqs, draws);
    } else {
      var m := |reqs| - 1;
      assert reqs[..m][..n] == reqs[..n] && draws[..m][..n] == draws[..n];
      LastingIff(start, reqs, draws);
      PrefixIsGood(start, reqs[..m], draws[..m], n);
    }
  }

  /** A further session on a file that brings back the databases it has started from: it is brought
      back at each of its requests exactly if the file leaves database 0 selected, or each record
      before its first SELECT changes neither database 0 nor the one left selected. */
  lemma NextSessionIff(lines: seq<CmdLine>, start: seq<Keyspace>, reqs: seq<Request>, draws: seq<seq<Bytes>>)
    requires |start| <= MAX_INT64 && AllLists(start) && |draws| == |reqs|
    requires (forall l <- lines :: SafeLine(l)) && LoadsOnly(|start|, lines, start)
    requires 0 <= EndsIn(|start|, 0, lines) < |start|
    requires FittedRun(start, reqs, draws) && LastingRun(start, reqs, draws)
    ensures LoadsThroughout(lines, start, reqs, draws) <==>
            Quiet(start, EndsIn(|start|, 0, lines), RunAll(start, reqs, draws).records)
  {
    hide RunAll, OnlyTo, Misread, EndsIn, LoadsOnly, SafeLine, GoodRecord, AllLists, FittedRun, Quiet, Frame;
    hide DurableRun, ReadableLog;
    var e := EndsIn(|start|, 0, lines);
    ReadThroughoutIff(start, e, reqs, draws);
    forall n | 0 <= n <= |reqs|
      ensures var r := RunAll(start, reqs[..n], draws[..n]);
              LoadsOnly(|start|, lines + Frame(0, r.records), r.dbs) <==> OnlyTo(start, Misread(e, r.records), r.dbs)
    {
      PrefixIsGood(start, reqs, draws, n);
      var r := RunAll(start, reqs[..n], draws[..n]);
      LoadsMore(|start|, lines, start, r.records, r.dbs);
    }
  }

  lemma {:induction false} EndsInLast(databases: nat, selected: int, records: seq<Record>)
    requires forall r <- records :: GoodRecord(databases, r)
    ensures EndsIn(databases, selected, Frame(selected, records)) == LastDb(selected, records)
    decreases |records|
  {
    hide IsSelect, Moved, SelectLine;
    if records != [] {
      var r, rest := records[0], records[1..];
      assert records == [r] + rest && r in records;
      EndsInLast(databases, r.dbIndex, rest);
      NotSelectStays(databases, r.dbIndex, r.line);
      var lines := [r.line] + Frame(r.dbIndex, rest);
      assert lines[1..] == Frame(r.dbIndex, rest);
      if r.dbIndex == selected {
        assert [] + [r.line] + Frame(r.dbIndex, rest) == lines;
      } else {
        SelectMoves(databases, selected, r.dbIndex);
        var all := [SelectLine(r.dbIndex)] + lines;
        assert [SelectLine(r.dbIndex)] + [r.line] + Frame(r.dbIndex, rest) == all && all[1..] == lines;
      }
    }
  }

  /** The file of a first session. */
  lemma FirstSession(databases: nat, reqs: seq<Request>, draws: seq<seq<Bytes>>)
    requires 0 < databases <= MAX_INT64 && |draws| == |reqs|
    requires FittedRun(Empty(databases), reqs, draws) && LastingRun(Empty(databases), reqs, draws)
    ensures var first := RunAll(Empty(databases), reqs, draws);
            var lines := Frame(0, first.records);
      && AllLists(first.dbs) && |first.dbs| == databases
      && (forall l <- lines :: SafeLine(l)) && LoadsOnly(databases, lines, first.dbs)
      && EndsIn(databases, 0, lines) == LastDb(0, first.records) && 0 <= LastDb(0, first.records) < databases
  {
    hide RunAll, EndsIn, LoadsOnly, SafeLine, GoodRecord, FittedLine, AllLists, FittedRun, Empty, Frame, DurableRun;
    hide Rebuilt, LastDb;
    EmptyHasNoLists(databases);
    RunRecords(Empty(databases), reqs, draws);
    var records := RunAll(Empty(databases), reqs, draws).records;
    FrameIsSafe(databases, 0, records);
    EndsInLast(databases, 0, records);
    LastDbInside(databases, records);
    ReplayRebuilds(databases, reqs, draws);
    RebuiltLoads(databases, reqs, draws);
  }

  /** Two lasting sessions of one server: the second is brought back with the first at each of its
      requests exactly if the first one's log ends in database 0, or each record of the second before
      its first SELECT changes neither database 0 nor the one where the first log has ended. */
  lemma TwoSessionsIff(databases: nat, reqs: seq<Request>, draws: seq<seq<Bytes>>, again: seq<Request>,
                       drawn: seq<seq<Bytes>>)
    requires 0 < databases <= MAX_INT64 && |draws| == |reqs| && |drawn| == |again|
    requires FittedRun(Empty(databases), reqs, draws) && LastingRun(Empty(databases), reqs, draws)
    requires var first := RunAll(Empty(databases), reqs, draws);
             FittedRun(first.dbs, again, drawn) && LastingRun(first.dbs, again, drawn)
    ensures var first := RunAll(Empty(databases), reqs, draws);
            var selected := LastDb(0, first.records);
            && 0 <= selected < databases
            && (LoadsThroughout(Frame(0, first.records), first.dbs, again, drawn) <==>
                Quiet(first.dbs, selected, RunAll(first.dbs, again, drawn).records))
  {
    hide *;
    FirstSession(databases, reqs, draws);
    NextSessionIff(Frame(0, RunAll(Empty(databases), reqs, draws).records), RunAll(Empty(databases), reqs, draws).dbs,
                   again, drawn);
  }

  lemma LastDbInside(databases: nat, records: seq<Record>)
    requires databases > 0 && forall r <- records :: GoodRecord(databases, r)
    ensures 0 <= LastDb(0, records) < databases
  {
    if records != [] {
      assert records[|records| - 1] in records;
    }
  }

  lemma RebuiltLoads(databases: nat, reqs: seq<Request>, draws: seq<seq<Bytes>>)
    requires |draws| == |reqs| && Rebuilt(databases, reqs, draws)
    ensures var r := RunAll(Empty(databases), reqs, draws); LoadsOnly(databases, Frame(0, r.records), r.dbs)
  {
    hide RunAll, Parse, Loads, Frame, Empty;
    var r := RunAll(Empty(databases), reqs, draws);
    forall result
      ensures BringsBack(databases, r.records, result) <==>
              Loads(Empty(databases), 0, Parse(FileOf(Frame(0, r.records))).payloads, result)
    {
    }
  }

  // ---- a session that is misread

  /** A line that draws nothing at random has one outcome. */
  lemma OneOutcome(dbs: seq<Keyspace>, r: Record)
    requires 0 <= r.dbIndex < |dbs| && LineDraws(dbs[r.dbIndex], r.line) == NoDraw
    ensures OnlyTo(dbs, [r], dbs[r.dbIndex := ExecBy(dbs[r.dbIndex], r.line, []).0.ks])
  {
    hide ExecBy, LineDraws;
    var i, line := r.dbIndex, r.line;
    assert [r][1..] == [] && Possible(dbs[i], line, []);
    assert forall result ::
      Applies(dbs, [r], result) <==>
      exists draw :: Possible(dbs[i], line, draw) && dbs[i := ExecBy(dbs[i], line, draw).0.ks] == result;
  }

  const NO_DRAW: seq<Bytes> := []
  const SELECT_ONE: Request := Request(0, ["select", "1"])

  /** One more request of a lasting run. */
  lemma LastsOn(start: seq<Keyspace>, reqs: seq<Request>, draws: seq<seq<Bytes>>, req: Request, draw: seq<Bytes>)
    requires |draws| == |reqs| && FittedRun(start, reqs, draws) && LastingRun(start, reqs, draws)
    requires var before := RunAll(start, reqs, draws);
             && PossibleStep(before, req, draw) && Recovery.Fits(before, req, draw)
             && Durable(before, req) && Readable(before, req, draw)
    ensures var all, drawn := reqs + [req], draws + [draw];
      && FittedRun(start, all, drawn) && LastingRun(start, all, drawn)
      && RunAll(start, all, drawn) == RunOne(RunAll(start, reqs, draws), req, draw)
  {
    hide PossibleStep, Recovery.Fits, Durable, Readable, RunOne, LastingRun;
    var all, drawn, n := reqs + [req], draws + [draw], |reqs|;
    assert all[..n] == reqs && drawn[..n] == draws && all[n] == req && drawn[n] == draw;
    LastingIff(start, all, drawn);
  }

  lemma StartsLasting(start: seq<Keyspace>)
    ensures FittedRun(start, [], []) && LastingRun(start, [], []) && RunAll(start, [], []) == Ran(start, map[], [])
  {
  }

  lemma SelectsOne()
    ensures RunAll(Empty(2), [SELECT_ONE], [NO_DRAW]) == Ran([map[], map[]], map[0 := 1], [])
    ensures FittedRun(Empty(2), [SELECT_ONE], [NO_DRAW]) && LastingRun(Empty(2), [SELECT_ONE], [NO_DRAW])
  {
    hide RunAll, FittedRun, LastingRun, ExecBy, Possible, SafeLine, FittedLine, Keepable;
    var start: seq<Keyspace> := [map[], map[]];
    assert Empty(2) == start && map[][0 := 1] == map[0 := 1];
    StartsLasting(start);
    SelectOneStep(start);
    LastsOn(start, [], [], SELECT_ONE, NO_DRAW);
    assert [] + [SELECT_ONE] == [SELECT_ONE] && [] + [NO_DRAW] == [NO_DRAW];
  }

  lemma SelectOneStep(dbs: seq<Keyspace>)
    requires |dbs| == 2
    ensures ExecOn(dbs, 0, SELECT_ONE.line, NO_DRAW) == Executed(dbs, 1, Plain(OkReply()), [])
    ensures PossibleOn(dbs, 0, SELECT_ONE.line, NO_DRAW) && Keepable(dbs[0], SELECT_ONE.line)
  {
    hide OkReply, ExecBy;
    SelectIsNotACommand();
    ParseIntOfFormatInt(1);
    assert FormatInt(1) == "1";
    LowerSelect();
  }

  lemma LowerSelect()
    ensures ToLower("select") == "select"
  {
    assert "select"[3..] == "ect" && "ect"[2..] == "t";
  }

  /** A SET on the database that the connection has selected. */
  lemma SetNext(start: seq<Keyspace>, reqs: seq<Request>, draws: seq<seq<Bytes>>, k: Bytes, v: Bytes)
    requires |draws| == |reqs| && FittedRun(start, reqs, draws) && LastingRun(start, reqs, draws)
    requires 0 <= SelectedBy(RunAll(start, reqs, draws).sessions, 0) < |start|
    requires PlainArg(Some(k)) && PlainArg(Some(v))
    ensures var before := RunAll(start, reqs, draws);
            var i := SelectedBy(before.sessions, 0);
            var all, drawn := reqs + [Request(0, ["set", k, v])], draws + [NO_DRAW];
      && FittedRun(start, all, drawn) && LastingRun(start, all, drawn)
      && RunAll(start, all, drawn).dbs == before.dbs[i := before.dbs[i][k := Str(Some(v))]]
      && RunAll(start, all, drawn).records == before.records + [Record(i, ["set", k, v])]
  {
    hide ExecBy, IsSelect, Possible, PlainArg, SafeLine, FittedLine, Keepable, RunAll, FittedRun, LastingRun;
    var req, before := Request(0, ["set", k, v]), RunAll(start, reqs, draws);
    SetStep(before.dbs, SelectedBy(before.sessions, 0), k, v);
    LastsOn(start, reqs, draws, req, NO_DRAW);
  }

  lemma SetStep(dbs: seq<Keyspace>, i: nat, k: Bytes, v: Bytes)
    requires i < |dbs| && PlainArg(Some(k)) && PlainArg(Some(v))
    ensures var line: CmdLine := ["set", k, v];
      && SafeLine(line) && FittedLine(line) && Keepable(dbs[i], line) && PossibleOn(dbs, i, line, NO_DRAW)
      && ExecOn(dbs, i, line, NO_DRAW)
         == Executed(dbs[i := dbs[i][k := Str(Some(v))]], i, Plain(OkReply()), [Record(i, line)])
  {
    hide ExecBy, IsSelect, Possible, PlainArg, SafeLine, FittedLine, Keepable, OkReply;
    PlainSet(dbs[i], k, v);
    SetLasts(dbs[i], k, v);
    SetIsSafe(k, v);
  }

  lemma SetIsSafe(k: Bytes, v: Bytes)
    requires PlainArg(Some(k)) && PlainArg(Some(v))
    ensures SafeLine(["set", k, v]) && FittedLine(["set", k, v])
  {
    LogNameIsPlain();
    assert Present(["set", k, v]) == [Some("set"), Some(k), Some(v)];
  }

  /** A first session that sets a key in database 1. */
  lemma FirstOfTwo(k: Bytes, v: Bytes)
    requires PlainArg(Some(k)) && PlainArg(Some(v))
    ensures var reqs := [SELECT_ONE, Request(0, ["set", k, v])];
            var draws := [NO_DRAW, NO_DRAW];
            var first := RunAll(Empty(2), reqs, draws);
      && FittedRun(Empty(2), reqs, draws) && LastingRun(Empty(2), reqs, draws)
      && first.dbs == [map[], map[k := Str(Some(v))]] && first.records == [Record(1, ["set", k, v])]
  {
    hide RunAll, FittedRun, LastingRun, PlainArg, Empty;
    SelectsOne();
    EmptyHasNoLists(2);
    SetNext(Empty(2), [SELECT_ONE], [NO_DRAW], k, v);
    assert [SELECT_ONE] + [Request(0, ["set", k, v])] == [SELECT_ONE, Request(0, ["set", k, v])];
    assert [NO_DRAW] + [NO_DRAW] == [NO_DRAW, NO_DRAW];
    assert [map[], map[]][1 := map[][k := Str(Some(v))]] == [map[], map[k := Str(Some(v))]];
  }

  /** A second session that sets it in database 0. */
  lemma SecondOfTwo(start: seq<Keyspace>, k: Bytes, w: Bytes)
    requires PlainArg(Some(k)) && PlainArg(Some(w)) && start != []
    ensures var again := [Request(0, ["set", k, w])];
            var second := RunAll(start, again, [NO_DRAW]);
      && FittedRun(start, again, [NO_DRAW]) && LastingRun(start, again, [NO_DRAW])
      && second.dbs == start[0 := start[0][k := Str(Some(w))]] && second.records == [Record(0, ["set", k, w])]
  {
    hide PlainArg, RunAll, FittedRun, LastingRun;
    StartsLasting(start);
    SetNext(start, [], [], k, w);
    assert [] + [Request(0, ["set", k, w])] == [Request(0, ["set", k, w])];
    assert [] + [NO_DRAW] == [NO_DRAW];
  }

  /** A first session selects database 1 and sets a key; a second one sets it in database 0. The file
      brings back the second value in database 1, and nothing in database 0. */
  lemma SecondSessionIsMisread(k: Bytes, v: Bytes, w: Bytes)
    requires PlainArg(Some(k)) && PlainArg(Some(v)) && PlainArg(Some(w))
    ensures var reqs, again := [SELECT_ONE, Request(0, ["set", k, v])], [Request(0, ["set", k, w])];
            var draws, drawn := [NO_DRAW, NO_DRAW], [NO_DRAW];
            var first := RunAll(Empty(2), reqs, draws);
            var second := RunAll(first.dbs, again, drawn);
      && FittedRun(Empty(2), reqs, draws) && LastingRun(Empty(2), reqs, draws)
      && FittedRun(first.dbs, again, drawn) && LastingRun(first.dbs, again, drawn)
      && second.dbs == [map[k := Str(Some(w))], map[k := Str(Some(v))]]
      && LoadsOnly(2, Frame(0, first.records) + Frame(0, second.records), [map[], map[k := Str(Some(w))]])
  {
    hide RunAll, FittedRun, LastingRun, OnlyTo, LoadsOnly, Frame, PlainArg, SafeLine, Empty, EndsIn, ExecBy, LineDraws;
    hide AllLists, IsSelect;
    var first: seq<Keyspace> := [map[], map[k := Str(Some(v))]];
    var line: CmdLine := ["set", k, w];
    FirstOfTwo(k, v);
    SecondOfTwo(first, k, w);
    FirstSession(2, [SELECT_ONE, Request(0, ["set", k, v])], [NO_DRAW, NO_DRAW]);
    SetIsSafe(k, w);
    PlainSet(first[1], k, w);
    MisreadOne(line);
    OneOutcome(first, Record(1, line));
    assert first[1][k := Str(Some(w))] == map[k := Str(Some(w))];
    assert first[1 := first[1][k := Str(Some(w))]] == [map[], map[k := Str(Some(w))]];
    LoadsMore(2, Frame(0, [Record(1, ["set", k, v])]), first, [Record(0, line)], [map[], map[k := Str(Some(w))]]);
  }

  lemma MisreadOne(line: CmdLine)
    ensures Misread(1, [Record(0, line)]) == [Record(1, line)]
  {
    assert [Record(0, line)][1..] == [];
  }
}
