/** The server in memory (database/standalone_database.go, aof/aof.go): its numbered databases, the
    connections that select them, the append-only file, and a restart from it. */
module Server {
  import opened Bytes
  import opened Reply
  import opened Commands
  import opened Standalone
  import opened Database
  import D = ConcurrentDict
  import Executor
  import LogCompleteness
  import opened Parser
  import ParserLoop
  import opened Aof
  import opened Recovery
  import opened RoundTrip

  class Connection {
    var selectedDB: int

    constructor ()
      ensures selectedDB == 0
    {
      selectedDB := 0;
    }
  }

  /** How many databases a configured number stands for. */
  function DbCount(databases: nat): nat {
    if databases == 0 then 16 else databases
  }

  lemma PlainAnswers(r: Reply)
    ensures Answers(r, Plain(r))
  {
  }

  /** What ExecOn answers without any database. */
  lemma OnNoDatabase(dbs: seq<Keyspace>, selected: int, line: CmdLine)
    ensures var e := ExecOn(dbs, selected, line, []);
      && (ToLower(line[0]) == "select" ==>
            && PossibleOn(dbs, selected, line, []) && e == Standalone.ExecSelect(dbs, selected, line)
            && (|line| != 2 ==> e == Executed(dbs, selected, Plain(ArityError("select")), [])))
      && (ToLower(line[0]) != "select" && selected >= |dbs| ==>
            PossibleOn(dbs, selected, line, [])
            && e == Executed(dbs, selected, Plain(Err("ERR DB index is out of range")), []))
      && (ToLower(line[0]) != "select" && selected < 0 ==>
            PossibleOn(dbs, selected, line, []) && e == Executed(dbs, selected, Plain(UnknownError()), []))
  {
    hide ExecBy, Possible;
  }

  lemma OnDatabase(dbs: seq<Keyspace>, selected: int, line: CmdLine, draw: seq<Bytes>)
    requires ToLower(line[0]) != "select" && 0 <= selected < |dbs|
    ensures PossibleOn(dbs, selected, line, draw) <==> Possible(dbs[selected], line, draw)
    ensures var e := ExecBy(dbs[selected], line, draw);
            ExecOn(dbs, selected, line, draw) ==
            Executed(dbs[selected := e.0.ks], selected, e.0.answer,
                     if e.1 == [] then [] else [Record(selected, e.1[0])])
  {
    hide ExecBy, Possible;
  }

  class StandaloneDatabase {
    const dbSet: seq<DB>
    /** Where addAof leads; null until the file has been loaded, and without append-only. */
    var aofHandler: AofHandler?
    /** The keyspace of every database. */
    ghost var views: seq<Keyspace>
    ghost var Repr: set<object>

    /** The objects of one database. */
    ghost function Objects(i: nat): set<object>
      requires i < |dbSet|
      reads dbSet[i], dbSet[i].dict
    {
      ObjectsOf(dbSet[i])
    }

    static ghost function ObjectsOf(db: DB): set<object>
      reads db, db.dict
    {
      {db, db.dict, db.dict.table} + db.Repr
    }

    /** Every database is intact and stands for its keyspace, and no two of them share an object. */
    ghost predicate Valid()
      reads this, Repr
    {
      && this in Repr && |views| == |dbSet|
      && (aofHandler != null ==> aofHandler in Repr && aofHandler.Valid())
      && (forall i :: 0 <= i < |dbSet| ==>
            && dbSet[i] in Repr && dbSet[i].dict in Repr && Objects(i) <= Repr
            && this !in Objects(i) && aofHandler !in Objects(i))
      && (forall i :: 0 <= i < |dbSet| ==> dbSet[i].Valid() && dbSet[i].View() == views[i])
      && (forall i, j :: 0 <= i < j < |dbSet| ==> Objects(i) !! Objects(j))
    }

    lemma SameNumber()
      requires Valid()
      ensures |views| == |dbSet|
    {
    }

    static ghost predicate IsEmpty(db: DB)
      reads db, db.Repr, db.dict, db.dict.table
    {
      db.Valid() && db.View() == map[]
    }

    static method MakeDB(fn: D.Hash) returns (db: DB)
      ensures fresh(ObjectsOf(db)) && IsEmpty(db)
    {
      hide DB.Valid, DB.View, DB.Owned;
      db := new DB(fn);
    }

    /** The databases of a new server. */
    static method MakeDbSet(fn: D.Hash, n: nat) returns (dbs: seq<DB>, ghost r: set<object>)
      ensures |dbs| == n && fresh(r)
      ensures forall j :: 0 <= j < n ==> ObjectsOf(dbs[j]) <= r && IsEmpty(dbs[j])
      ensures forall j, k :: 0 <= j < k < n ==> ObjectsOf(dbs[j]) !! ObjectsOf(dbs[k])
    {
      hide IsEmpty;
      dbs, r := [], {};
      for i := 0 to n
        invariant |dbs| == i && fresh(r)
        invariant forall j :: 0 <= j < i ==> ObjectsOf(dbs[j]) <= r && IsEmpty(dbs[j])
        invariant forall j, k :: 0 <= j < k < i ==> ObjectsOf(dbs[j]) !! ObjectsOf(dbs[k])
      {
        var db := MakeDB(fn);
        dbs := dbs + [db];
        r := r + ObjectsOf(db);
      }
    }

    constructor (fn: D.Hash, databases: nat)
      ensures Valid() && fresh(Repr) && aofHandler == null && views == Empty(DbCount(databases))
    {
      hide DB.Valid, DB.View, DB.Owned;
      var n := DbCount(databases);
      var dbs, r := MakeDbSet(fn, n);
      dbSet, aofHandler, views := dbs, null, Empty(n);
      Repr := {this} + r;
    }

    /** Makes addAof lead to a handler of its own. */
    method Open(handler: AofHandler)
      requires Valid() && aofHandler == null && handler.Valid() && handler !in Repr
      modifies this
      ensures Valid() && aofHandler == handler && Repr == old(Repr) + {handler} && views == old(views)
    {
      hide DB.Valid, DB.View, DB.Owned, AofHandler.Valid;
      aofHandler := handler;
      Repr := Repr + {handler};
    }

    /** The writer catches up with the channel. */
    method Drain()
      requires Valid() && aofHandler != null
      modifies Repr
      ensures Valid() && aofHandler == old(aofHandler) && Repr == old(Repr) && views == old(views)
      ensures Handed() == old(Handed()) && aofHandler.existing == old(aofHandler.existing)
      ensures aofHandler.aofFile == aofHandler.existing + Written(0, Handed())
    {
      hide DB.Valid, DB.View, DB.Owned, Written;
      aofHandler.HandleAof();
    }

    /** The records handed to the log since it was opened. */
    ghost function Handed(): seq<Record>
      reads this, aofHandler
    {
      if aofHandler == null then [] else aofHandler.handed
    }

    /** For every connection and every command line: the databases in memory do what ExecOn says of
        the keyspaces they stand for, and what is logged is handed over under its own index. */
    method Exec(c: Connection, line: CmdLine) returns (r: Reply, ghost draw: seq<Bytes>)
      requires Valid() && c !in Repr
      modifies Repr, c
      ensures Valid() && fresh(Repr - old(Repr)) && aofHandler == old(aofHandler)
      ensures PossibleOn(old(views), old(c.selectedDB), line, draw)
      ensures var e := ExecOn(old(views), old(c.selectedDB), line, draw);
        && views == e.dbs && c.selectedDB == e.selected && Answers(r, e.answer)
        && (aofHandler != null ==> Handed() == old(Handed()) + e.records)
    {
      assert |views| == |dbSet|;
      hide Valid, ExecBy, Possible, ExecOn, PossibleOn, Standalone.ExecSelect, Answers;
      OnNoDatabase(views, c.selectedDB, line);
      draw := [];
      if ToLower(line[0]) == "select" {
        if |line| != 2 {
          PlainAnswers(ArityError("select"));
          return ArityError("select"), [];
        }
        r := ExecSelect(c, line);
        PlainAnswers(r);
        return r, [];
      }
      var dbIndex := c.selectedDB;
      if dbIndex >= |dbSet| {
        PlainAnswers(Err("ERR DB index is out of range"));
        return Err("ERR DB index is out of range"), [];
      }
      if dbIndex < 0 {
        PlainAnswers(UnknownError());
        return UnknownError(), [];
      }
      r, draw := ExecIn(dbIndex, line);
      OnDatabase(old(views), dbIndex, line, draw);
    }

    method ExecSelect(c: Connection, line: CmdLine) returns (r: Reply)
      requires |line| == 2 && |views| == |dbSet|
      modifies c
      ensures var e := Standalone.ExecSelect(views, old(c.selectedDB), line);
              e == Executed(views, c.selectedDB, Plain(r), [])
    {
      match ParseInt(line[1])
      case None => return Err("ERR invalid DB index");
      case Some(i) =>
        if i >= |dbSet| {
          return Err("ERR DB index is out of range");
        }
        c.selectedDB := i;
        return OkReply();
    }

    /** A command on one of the databases. */
    method ExecIn(i: nat, line: CmdLine) returns (r: Reply, ghost draw: seq<Bytes>)
      requires Valid() && i < |dbSet|
      modifies Repr
      ensures Valid() && fresh(Repr - old(Repr)) && aofHandler == old(aofHandler)
      ensures Possible(old(views)[i], line, draw)
      ensures var e := ExecBy(old(views)[i], line, draw);
        && views == old(views)[i := e.0.ks] && Answers(r, e.0.answer)
        && (aofHandler != null ==>
              Handed() == old(Handed()) + if e.1 == [] then [] else [Record(i, e.1[0])])
    {
      hide ExecBy, Possible, DB.Valid, DB.View, DB.Owned, AofHandler.Valid;
      var db := dbSet[i];
      ghost var ks := views[i];
      var logged := |db.aof|;
      r, draw := Executor.Exec(db, line);
      LoggedPossible(ks, line, draw);
      if aofHandler != null && logged < |db.aof| {
        aofHandler.AddAof(Record(i, db.aof[logged]));
      }
      views := views[i := ExecBy(ks, line, draw).0.ks];
      Repr := Repr + Objects(i);
      OthersStay(i);
    }

    /** A change inside one database leaves the others alone. */
    twostate lemma OthersStay(i: nat)
      requires old(Valid()) && i < |dbSet| && aofHandler == old(aofHandler)
      requires aofHandler != null ==> aofHandler.Valid()
      requires dbSet[i].Valid() && fresh(Objects(i) - old(Objects(i)))
      requires Repr == old(Repr) + Objects(i) && views == old(views)[i := dbSet[i].View()]
      requires forall o: object :: o in old(Repr) && o !in old(Objects(i)) && o != this && o != aofHandler ==>
               unchanged(o)
      ensures Valid() && fresh(Repr - old(Repr))
    {
      hide DB.View, DB.Owned, AofHandler.Valid, LogCompleteness.ListsNonEmpty;
      forall j | 0 <= j < |dbSet| && j != i
        ensures Objects(j) == old(Objects(j)) && dbSet[j].Valid() && dbSet[j].View() == views[j]
      {
        assert old(Objects(j) !! Objects(i));
        assert forall o: object :: o in old(Objects(j)) ==> unchanged(o);
      }
    }
  }

  /** LoadAof: executes what the file holds. If the parser panics, it waits for ever on the channel
      that nobody closes: returned tells whether it comes back. */
  method LoadAof(db: StandaloneDatabase, file: Bytes) returns (returned: bool)
    requires db.Valid() && db.aofHandler == null
    modifies db.Repr
    ensures db.Valid() && fresh(db.Repr - old(db.Repr)) && db.aofHandler == null
    ensures Loads(old(db.views), 0, Parse(file).payloads, db.views)
    ensures returned <==> Parse(file).ending == Closed
  {
    hide StandaloneDatabase.Valid, Parse, ExecOn, PossibleOn, Filled, ExecBy, Possible, Answers;
    var ch, ending := ParserLoop.Parse0(file);
    assert forall p <- ch :: p.IoErr? ==> ending == Closed by { NoErrorBeforeTheEnd(file); }
    var fakeConn := new Connection();
    assert ch[0..] == ch;
    var i := 0;
    while i < |ch|
      invariant 0 <= i <= |ch|
      invariant db.Valid() && fresh(db.Repr - old(db.Repr)) && db.aofHandler == null
      invariant fresh(fakeConn) && fakeConn !in db.Repr
      invariant forall result ::
        Loads(db.views, fakeConn.selectedDB, ch[i..], result) ==> Loads(old(db.views), 0, ch, result)
    {
      var p := ch[i];
      ghost var views, selected := db.views, fakeConn.selectedDB;
      assert ch[i..][0] == p && ch[i..][1..] == ch[i + 1..];
      i := i + 1;
      if p == IoErr(true) {
        return true;
      }
      if p.Data? && p.reply.MultiBulk? && p.reply.args != [] {
        var _, draw := db.Exec(fakeConn, Filled(p.reply.args));
      }
    }
    return ending == Closed;
  }

  /** NewStandaloneDatabase, with append-only or without: the databases are loaded from the file
      before anything is logged. Without returned, the server never starts. */
  method NewStandaloneDatabase(fn: D.Hash, databases: nat, appendOnly: bool, file: Bytes)
    returns (mdb: StandaloneDatabase, returned: bool)
    ensures mdb.Valid() && fresh(mdb.Repr) && |mdb.views| == if databases == 0 then 16 else databases
    ensures appendOnly ==> Loads(Empty(DbCount(databases)), 0, Parse(file).payloads, mdb.views)
    ensures !appendOnly ==> mdb.views == Empty(DbCount(databases)) && mdb.aofHandler == null
    ensures returned <==> (appendOnly ==> Parse(file).ending == Closed)
    ensures appendOnly && returned ==>
      mdb.aofHandler != null && mdb.aofHandler.handed == [] && mdb.aofHandler.existing == file
  {
    hide Parse, Loads, DB.Valid, DB.View, DB.Owned, AofHandler.Valid;
    hide StandaloneDatabase.Valid;
    mdb := new StandaloneDatabase(fn, databases);
    mdb.SameNumber();
    returned := true;
    if appendOnly {
      returned := LoadAof(mdb, file);
      mdb.SameNumber();
      if returned {
        var handler := new AofHandler(file);
        mdb.Open(handler);
        mdb.SameNumber();
      }
    }
  }

  /** Every request of the run has been answered. */
  ghost predicate Answered(start: seq<Keyspace>, reqs: seq<Request>, draws: seq<seq<Bytes>>, replies: seq<Reply>)
    requires |draws| == |reqs|
  {
    && |replies| == |reqs|
    && (reqs != [] ==>
          var n := |reqs| - 1;
          var before := RunAll(start, reqs[..n], draws[..n]);
          var e := ExecOn(before.dbs, SelectedBy(before.sessions, reqs[n].conn), reqs[n].line, draws[n]);
          Answered(start, reqs[..n], draws[..n], replies[..n]) && Answers(replies[n], e.answer))
  }

  /** The server is where the run has brought it. */
  ghost predicate At(mdb: StandaloneDatabase, conns: map<nat, Connection>, r: Ran)
    reads mdb, mdb.aofHandler, conns.Values
  {
    && mdb.views == r.dbs
    && (mdb.aofHandler != null ==> mdb.Handed() == r.records)
    && (forall k :: SelectedBy(r.sessions, k) == if k in conns then conns[k].selectedDB else 0)
  }

  /** One more request of a run. */
  lemma RunMore(start: seq<Keyspace>, reqs: seq<Request>, draws: seq<seq<Bytes>>, replies: seq<Reply>, req: Request,
                draw: seq<Bytes>, reply: Reply)
    requires |draws| == |reqs| && PossibleRun(start, reqs, draws) && Answered(start, reqs, draws, replies)
    requires PossibleStep(RunAll(start, reqs, draws), req, draw)
    requires var before := RunAll(start, reqs, draws);
             Answers(reply, ExecOn(before.dbs, SelectedBy(before.sessions, req.conn), req.line, draw).answer)
    ensures PossibleRun(start, reqs + [req], draws + [draw])
    ensures RunAll(start, reqs + [req], draws + [draw]) == RunOne(RunAll(start, reqs, draws), req, draw)
    ensures Answered(start, reqs + [req], draws + [draw], replies + [reply])
  {
    hide ExecOn, PossibleStep, RunOne, Answers;
    var n := |reqs|;
    assert (reqs + [req])[..n] == reqs && (draws + [draw])[..n] == draws && (replies + [reply])[..n] == replies;
  }

  /** The requests of any clients, one after the other, on a server that has just started. */
  method Serve(mdb: StandaloneDatabase, ghost start: seq<Keyspace>, reqs: seq<Request>)
    returns (replies: seq<Reply>, ghost draws: seq<seq<Bytes>>)
    requires mdb.Valid() && mdb.views == start && mdb.Handed() == []
    modifies mdb.Repr
    ensures mdb.Valid() && fresh(mdb.Repr - old(mdb.Repr)) && mdb.aofHandler == old(mdb.aofHandler)
    ensures |draws| == |reqs| && PossibleRun(start, reqs, draws) && Answered(start, reqs, draws, replies)
    ensures var r := RunAll(start, reqs, draws);
            mdb.views == r.dbs && (mdb.aofHandler != null ==> mdb.Handed() == r.records)
  {
    hide StandaloneDatabase.Valid, ExecOn, PossibleOn, Answers, PossibleRun, Answered, RunAll;
    var conns: map<nat, Connection> := map[];
    replies, draws := [], [];
    RunStarts(start);
    for i := 0 to |reqs|
      invariant mdb.Valid() && fresh(mdb.Repr - old(mdb.Repr)) && mdb.aofHandler == old(mdb.aofHandler)
      invariant forall k :: k in conns ==> fresh(conns[k]) && conns[k] !in mdb.Repr
      invariant forall j, k :: j in conns && k in conns && j != k ==> conns[j] != conns[k]
      invariant |draws| == i && PossibleRun(start, reqs[..i], draws) && Answered(start, reqs[..i], draws, replies)
      invariant At(mdb, conns, RunAll(start, reqs[..i], draws))
    {
      var req := reqs[i];
      if req.conn !in conns {
        var newConn := new Connection();
        conns := conns[req.conn := newConn];
      }
      var r, draw := mdb.Exec(conns[req.conn], req.line);
      RunMore(start, reqs[..i], draws, replies, req, draw, r);
      assert reqs[..i] + [req] == reqs[..i + 1];
      replies, draws := replies + [r], draws + [draw];
    }
    assert reqs[..|reqs|] == reqs;
  }

  lemma RunStarts(start: seq<Keyspace>)
    ensures PossibleRun(start, [], []) && Answered(start, [], [], [])
    ensures RunAll(start, [], []) == Ran(start, map[], [])
  {
  }

  /** A server with an empty log serves requests, the writer catches up, and a second server starts
      from the file. Unless a logged argument starts with `$` or does not fit, the second server comes
      up exactly if no logged line has an empty argument before its last; and if it does after a
      durable run, every one of its databases is as the first server left it. */
  method ServeAndRestart(fn: D.Hash, databases: nat, reqs: seq<Request>)
    returns (first: StandaloneDatabase, second: StandaloneDatabase, returned: bool, ghost draws: seq<seq<Bytes>>)
    requires 0 < databases <= MAX_INT64
    ensures |draws| == |reqs| && PossibleRun(Empty(databases), reqs, draws)
    ensures first.Valid() && first.views == RunAll(Empty(databases), reqs, draws).dbs
    ensures second.Valid() && first.Repr !! second.Repr
    ensures FittedRun(Empty(databases), reqs, draws) ==>
      (returned <==> ReadableLog(RunAll(Empty(databases), reqs, draws).records))
    ensures FittedRun(Empty(databases), reqs, draws) && DurableRun(Empty(databases), reqs, draws) && returned ==>
      second.views == first.views
  {
    hide StandaloneDatabase.Valid, RunAll, PossibleRun, FittedRun, DurableRun, Parse, Loads, Written, Answered;
    hide AofHandler.Valid, ReadableLog, Empty;
    var started;
    ghost var start := Empty(databases);
    ParseEmpty();
    first, started := NewStandaloneDatabase(fn, databases, true, []);
    FreshStart(databases, first.views);
    var _, ds := Serve(first, start, reqs);
    draws := ds;
    first.Drain();
    var file := first.aofHandler.aofFile;
    ghost var r := RunAll(start, reqs, draws);
    assert file == Written(0, r.records);
    second, returned := NewStandaloneDatabase(fn, databases, true, file);
    if FittedRun(start, reqs, draws) {
      FileIsReadIff(databases, reqs, draws);
      if DurableRun(start, reqs, draws) && returned {
        ReplayRebuilds(databases, reqs, draws);
        assert BringsBack(databases, r.records, second.views);
      }
    }
  }

  lemma ParseEmpty()
    ensures Parse([]) == Outcome([IoErr(true)], Closed)
  {
  }

  lemma FreshStart(count: nat, views: seq<Keyspace>)
    requires Loads(Empty(count), 0, Parse([]).payloads, views)
    ensures views == Empty(count)
  {
    hide Parse;
    ParseEmpty();
  }

  /** The parser reads the file of a run to its end exactly if the log can be read. */
  lemma FileIsReadIff(databases: nat, reqs: seq<Request>, draws: seq<seq<Bytes>>)
    requires databases <= MAX_INT64 && |draws| == |reqs| && FittedRun(Empty(databases), reqs, draws)
    ensures var records := RunAll(Empty(databases), reqs, draws).records;
            Parse(Written(0, records)).ending == Closed <==> ReadableLog(records)
  {
    hide RunAll, FittedRun, Parse, Written, GoodRecord, FittedLine, SafeLine, AllLists, Empty;
    EmptyHasNoLists(databases);
    RunRecords(Empty(databases), reqs, draws);
    FileClosesIff(databases, RunAll(Empty(databases), reqs, draws).records);
  }
}
