/** The numbered databases of one server (database/standalone_database.go) over whole runs: which
    database a request reaches, and that the databases have nothing to do with each other. */
module Selections {
  import opened Bytes
  import opened Reply
  import opened Commands
  import opened Standalone

  /** A well-formed SELECT of a server with this many databases; negative indices are let through. */
  predicate Selects(databases: nat, line: CmdLine, i: int) {
    ToLower(line[0]) == "select" && |line| == 2 && ParseInt(line[1]) == Some(i) && i < databases
  }

  /** The request at j is the last one, before the n-th, with which the connection has selected. */
  ghost predicate SelectedLast(databases: nat, reqs: seq<Request>, n: nat, conn: nat, j: int, i: int)
    requires n <= |reqs|
  {
    && 0 <= j < n && reqs[j].conn == conn && Selects(databases, reqs[j].line, i)
    && forall k, other :: j < k < n && reqs[k].conn == conn ==> !Selects(databases, reqs[k].line, other)
  }

  /** The connection has this database selected before the n-th request: the one of its last SELECT, and
      0 if it has sent none that is well formed. */
  ghost predicate HasSelected(databases: nat, reqs: seq<Request>, n: nat, conn: nat, i: int)
    requires n <= |reqs|
  {
    || (exists j :: SelectedLast(databases, reqs, n, conn, j, i))
    || (i == 0 && forall j, other :: 0 <= j < n && reqs[j].conn == conn ==> !Selects(databases, reqs[j].line, other))
  }

  /** One request moves its own connection, exactly if it is a well-formed SELECT, and answers OK then
      and an error if it is a SELECT otherwise. */
  lemma SelectIff(before: Ran, req: Request, draw: seq<Bytes>)
    requires ToLower(req.line[0]) == "select"
    ensures var e, selected := StepOf(before, req, draw), SelectedBy(before.sessions, req.conn);
      && e.dbs == before.dbs && e.records == []
      && (forall i :: Selects(|before.dbs|, req.line, i) ==> e.selected == i && e.answer == Plain(Status("OK")))
      && ((forall i :: !Selects(|before.dbs|, req.line, i)) ==>
            e.selected == selected && e.answer.Plain? && e.answer.reply.Err?)
  {
    hide ParseInt, ArityError;
    assert ArityError("select").Err? by { ArityIsErr("select"); }
    if |req.line| == 2 && ParseInt(req.line[1]).Some? && ParseInt(req.line[1]).value < |before.dbs| {
      assert Selects(|before.dbs|, req.line, ParseInt(req.line[1]).value);
    }
  }

  lemma ArityIsErr(name: Bytes)
    ensures ArityError(name).Err?
  {
  }

  /** Any other request leaves the selection alone. It reaches the selected database and no other, with
      the effect, the answer and the log of its command there; a selection past the databases is an
      error and a negative one panics. */
  lemma ReachesOwn(before: Ran, req: Request, draw: seq<Bytes>)
    requires ToLower(req.line[0]) != "select"
    ensures var e, i := StepOf(before, req, draw), SelectedBy(before.sessions, req.conn);
      && e.selected == i && |e.dbs| == |before.dbs|
      && (forall k :: 0 <= k < |e.dbs| && k != i ==> e.dbs[k] == before.dbs[k])
      && if 0 <= i < |before.dbs| then
           var r := ExecBy(before.dbs[i], req.line, draw);
           && e.dbs[i] == r.0.ks && e.answer == r.0.answer
           && |e.records| == |r.1| && forall k :: 0 <= k < |r.1| ==> e.records[k] == Record(i, r.1[k])
         else
           && e.records == []
           && e.answer == Plain(if i < 0 then UnknownError() else Err("ERR DB index is out of range"))
  {
    hide ExecBy, UnknownError;
    if 0 <= SelectedBy(before.sessions, req.conn) < |before.dbs| {
      AtMostOne(before.dbs[SelectedBy(before.sessions, req.conn)], req.line, draw);
    }
  }

  lemma AtMostOne(ks: Keyspace, line: CmdLine, draw: seq<Bytes>)
    ensures |ExecBy(ks, line, draw).1| <= 1
  {
    hide Run, Lookup, ToLower, LogName, Arity;
  }

  // ---- whole runs

  lemma OneSelection(databases: nat, line: CmdLine, i: int, other: int)
    requires Selects(databases, line, i) && Selects(databases, line, other)
    ensures i == other
  {
  }

  lemma SelectedNext(databases: nat, reqs: seq<Request>, n: nat, conn: nat, i: int)
    requires n < |reqs| && HasSelected(databases, reqs, n, conn, i)
    ensures reqs[n].conn != conn || (forall other :: !Selects(databases, reqs[n].line, other)) ==>
      HasSelected(databases, reqs, n + 1, conn, i)
    ensures forall other :: reqs[n].conn == conn && Selects(databases, reqs[n].line, other) ==>
      HasSelected(databases, reqs, n + 1, conn, other)
  {
    hide Selects;
    if exists j :: SelectedLast(databases, reqs, n, conn, j, i) {
      var j :| SelectedLast(databases, reqs, n, conn, j, i);
      if reqs[n].conn != conn || forall other :: !Selects(databases, reqs[n].line, other) {
        assert SelectedLast(databases, reqs, n + 1, conn, j, i);
      }
    }
    forall other | reqs[n].conn == conn && Selects(databases, reqs[n].line, other)
      ensures HasSelected(databases, reqs, n + 1, conn, other)
    {
      assert SelectedLast(databases, reqs, n + 1, conn, n, other);
    }
  }

  /** In every run, what a connection has selected is what its own last SELECT says. */
  lemma {:induction false} SelectionIs(start: seq<Keyspace>, reqs: seq<Request>, draws: seq<seq<Bytes>>, n: nat,
                                       conn: nat)
    requires |draws| == |reqs| && n <= |reqs|
    ensures HasSelected(|start|, reqs, n, conn, SelectedBy(RunAll(start, reqs[..n], draws[..n]).sessions, conn))
    decreases n
  {
    hide StepOf, Selects, HasSelected;
    if n == 0 {
      NothingSelected(|start|, reqs, conn);
    } else {
      var before, req, draw := RunAll(start, reqs[..n - 1], draws[..n - 1]), reqs[n - 1], draws[n - 1];
      SelectionIs(start, reqs, draws, n - 1, conn);
      assert reqs[..n][..n - 1] == reqs[..n - 1] && draws[..n][..n - 1] == draws[..n - 1];
      SelectedNext(|start|, reqs, n - 1, conn, SelectedBy(before.sessions, conn));
      SelectionMoves(before, req, draw);
    }
  }

  lemma SelectionMoves(before: Ran, req: Request, draw: seq<Bytes>)
    ensures var e := StepOf(before, req, draw);
      && (forall i :: Selects(|before.dbs|, req.line, i) ==> e.selected == i)
      && ((forall i :: !Selects(|before.dbs|, req.line, i)) ==> e.selected == SelectedBy(before.sessions, req.conn))
  {
    hide StepOf, ParseInt;
    if ToLower(req.line[0]) == "select" {
      SelectIff(before, req, draw);
    } else {
      ReachesOwn(before, req, draw);
    }
  }

  lemma NothingSelected(databases: nat, reqs: seq<Request>, conn: nat)
    ensures HasSelected(databases, reqs, 0, conn, 0)
  {
  }

  /** The lines, and their draws, that reach one database. */
  function Reaching(start: seq<Keyspace>, reqs: seq<Request>, draws: seq<seq<Bytes>>, i: nat)
      : seq<(CmdLine, seq<Bytes>)>
    requires |draws| == |reqs|
  {
    if reqs == [] then []
    else
      var n := |reqs| - 1;
      var before := RunAll(start, reqs[..n], draws[..n]);
      Reaching(start, reqs[..n], draws[..n], i)
      + if ToLower(reqs[n].line[0]) != "select" && SelectedBy(before.sessions, reqs[n].conn) == i
        then [(reqs[n].line, draws[n])] else []
  }

  /** Lines executed one after the other on one keyspace. */
  function Alone(ks: Keyspace, lines: seq<(CmdLine, seq<Bytes>)>): Keyspace {
    if lines == [] then ks
    else
      var n := |lines| - 1;
      ExecBy(Alone(ks, lines[..n]), lines[n].0, lines[n].1).0.ks
  }

  /** Each database is what it would be if the lines that reach it had been executed on it alone. */
  lemma {:induction false} DatabasesAreSeparate(start: seq<Keyspace>, reqs: seq<Request>, draws: seq<seq<Bytes>>,
                                                i: nat)
    requires |draws| == |reqs| && i < |start|
    ensures RunAll(start, reqs, draws).dbs[i] == Alone(start[i], Reaching(start, reqs, draws, i))
  {
    hide StepOf, ExecBy;
    if reqs != [] {
      var n := |reqs| - 1;
      var before := RunAll(start, reqs[..n], draws[..n]);
      DatabasesAreSeparate(start, reqs[..n], draws[..n], i);
      if ToLower(reqs[n].line[0]) == "select" {
        SelectIff(before, reqs[n], draws[n]);
        assert Reaching(start, reqs, draws, i) == Reaching(start, reqs[..n], draws[..n], i);
      } else {
        ReachesOwn(before, reqs[n], draws[n]);
        AloneMore(start[i], Reaching(start, reqs[..n], draws[..n], i), (reqs[n].line, draws[n]));
      }
    }
  }

  lemma AloneMore(ks: Keyspace, lines: seq<(CmdLine, seq<Bytes>)>, last: (CmdLine, seq<Bytes>))
    ensures Alone(ks, lines + [last]) == ExecBy(Alone(ks, lines), last.0, last.1).0.ks && lines + [] == lines
  {
    hide ExecBy;
    assert (lines + [last])[..|lines|] == lines;
  }
}
