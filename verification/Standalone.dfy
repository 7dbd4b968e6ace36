/** The numbered databases of one server (database/standalone_database.go) as keyspaces. */
module Standalone {
  import opened Bytes
  import opened Reply
  import opened Commands

  /** A line for the append-only log, with the database it belongs to. */
  datatype Record = Record(dbIndex: int, line: CmdLine)

  datatype Executed = Executed(dbs: seq<Keyspace>, selected: int, answer: Answer, records: seq<Record>)

  predicate IsSelect(line: CmdLine) {
    ToLower(line[0]) == "select"
  }

  /** execSelect accepts negative indices; every later command on such a connection panics. */
  function ExecSelect(dbs: seq<Keyspace>, selected: int, line: CmdLine): Executed {
    if |line| != 2 then Executed(dbs, selected, Plain(ArityError("select")), [])
    else
      match ParseInt(line[1])
      case None => Executed(dbs, selected, Plain(Err("ERR invalid DB index")), [])
      case Some(i) =>
        if i >= |dbs| then Executed(dbs, selected, Plain(Err("ERR DB index is out of range")), [])
        else Executed(dbs, i, Plain(OkReply()), [])
  }

  /** StandaloneDatabase.Exec on a connection that has selected a database, given what the command
      draws at random. */
  function ExecOn(dbs: seq<Keyspace>, selected: int, line: CmdLine, draw: seq<Bytes>): (e: Executed)
    ensures |e.dbs| == |dbs|
  {
    if IsSelect(line) then ExecSelect(dbs, selected, line)
    else if selected >= |dbs| then Executed(dbs, selected, Plain(Err("ERR DB index is out of range")), [])
    else if selected < 0 then Executed(dbs, selected, Plain(UnknownError()), [])
    else
      var r := ExecBy(dbs[selected], line, draw);
      Executed(dbs[selected := r.0.ks], selected, r.0.answer,
               if r.1 == [] then [] else [Record(selected, r.1[0])])
  }

  /** The draws that can happen. */
  ghost predicate PossibleOn(dbs: seq<Keyspace>, selected: int, line: CmdLine, draw: seq<Bytes>) {
    if !IsSelect(line) && 0 <= selected < |dbs| then Possible(dbs[selected], line, draw) else draw == []
  }

  function Empty(databases: nat): seq<Keyspace> {
    seq(databases, _ => map[])
  }

  /** A request on a numbered connection. */
  datatype Request = Request(conn: nat, line: CmdLine)

  /** The database that a connection has selected; new connections start at 0. */
  function SelectedBy(sessions: map<nat, int>, conn: nat): int {
    if conn in sessions then sessions[conn] else 0
  }

  /** The state of a server after a run, and what it has handed to the log. */
  datatype Ran = Ran(dbs: seq<Keyspace>, sessions: map<nat, int>, records: seq<Record>)

  /** What one request does. */
  function StepOf(before: Ran, req: Request, draw: seq<Bytes>): Executed {
    ExecOn(before.dbs, SelectedBy(before.sessions, req.conn), req.line, draw)
  }

  function RunOne(before: Ran, req: Request, draw: seq<Bytes>): Ran {
    var e := StepOf(before, req, draw);
    Ran(e.dbs, before.sessions[req.conn := e.selected], before.records + e.records)
  }

  /** A sequential run on a server that starts with these databases, given what each request draws. */
  function RunAll(start: seq<Keyspace>, reqs: seq<Request>, draws: seq<seq<Bytes>>): (r: Ran)
    requires |draws| == |reqs|
    ensures |r.dbs| == |start|
  {
    if reqs == [] then Ran(start, map[], [])
    else
      var n := |reqs| - 1;
      RunOne(RunAll(start, reqs[..n], draws[..n]), reqs[n], draws[n])
  }

  ghost predicate PossibleStep(before: Ran, req: Request, draw: seq<Bytes>) {
    PossibleOn(before.dbs, SelectedBy(before.sessions, req.conn), req.line, draw)
  }

  /** Every request has drawn what it could. */
  ghost predicate PossibleRun(start: seq<Keyspace>, reqs: seq<Request>, draws: seq<seq<Bytes>>)
    requires |draws| == |reqs|
  {
    reqs == [] ||
    (var n := |reqs| - 1;
     && PossibleRun(start, reqs[..n], draws[..n])
     && PossibleStep(RunAll(start, reqs[..n], draws[..n]), reqs[n], draws[n]))
  }
}
