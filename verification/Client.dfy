/** The pipelined client (resp/client/client.go): a writer and a reader goroutine share one
    connection, and replies carry no request identity. The connection is a FIFO of whole
    messages in each direction, with no connection errors; timeouts are callers giving up. */
module Client {
  import opened Bytes
  import opened Reply
  import Parser
  import RoundTrip

  type Args = seq<Bytes>

  /** A server that answers every request, in order. */
  datatype Config<!S> = Config(serve: (S, Args) -> (S, Reply), init: S)

  const CHAN_SIZE := 256

  datatype Caller = Blocked | GaveUp | Returned(reply: Reply)

  /** Requests are numbered in the order of Send. */
  datatype State<S> = State(
    args: seq<Args>,              // by request
    callers: seq<Caller>,         // by request
    pendingReqs: seq<nat>,        // channel from Send to the writer
    writing: Option<nat>,         // written to the connection, not yet in waitingReqs
    waitingReqs: seq<nat>,        // channel from the writer to the reader
    toServer: seq<Args>,
    toClient: seq<Reply>,
    inHand: Option<Reply>,        // parsed by the reader, which waits for a request
    replies: map<nat, Reply>,     // by request
    server: S,
    written: seq<nat>,            // history: the requests written, in order
    served: seq<Args>,            // history: the messages the server has answered
    given: seq<Reply>)            // history: the replies given to requests, in order

  datatype Step =
    | Send(request: Args)         // Send or a heartbeat queues a request
    | Write                       // doRequest writes the next pending request
    | Enqueue                     // doRequest passes it on to the reader
    | Serve                       // the server answers the next message
    | Parse                       // the reader takes the next reply
    | Finish                      // finishRequest gives it to the next waiting request
    | Return(id: nat)             // a caller sees its reply
    | Timeout(id: nat)            // a caller gives up

  function Initial<S>(c: Config<S>): State<S> {
    State([], [], [], None, [], [], [], None, map[], c.init, [], [], [])
  }

  predicate Enabled<S>(s: State<S>, step: Step) {
    match step
    case Send(_) => |s.pendingReqs| < CHAN_SIZE
    case Write => s.pendingReqs != [] && s.pendingReqs[0] < |s.args| && s.writing == None
    case Enqueue => s.writing.Some? && |s.waitingReqs| < CHAN_SIZE
    case Serve => s.toServer != []
    case Parse => s.toClient != [] && s.inHand == None
    case Finish => s.inHand.Some? && s.waitingReqs != []
    case Return(id) => id < |s.callers| && s.callers[id] == Blocked && id in s.replies
    case Timeout(id) => id < |s.callers| && s.callers[id] == Blocked
  }

  /** Requests without arguments are dropped by the writer. */
  function Apply<S>(c: Config<S>, s: State<S>, step: Step): State<S>
    requires Enabled(s, step)
  {
    match step
    case Send(request) =>
      s.(args := s.args + [request], callers := s.callers + [Blocked], pendingReqs := s.pendingReqs + [|s.args|])
    case Write =>
      var id := s.pendingReqs[0];
      if s.args[id] == [] then s.(pendingReqs := s.pendingReqs[1..])
      else s.(pendingReqs := s.pendingReqs[1..], writing := Some(id), toServer := s.toServer + [s.args[id]],
              written := s.written + [id])
    case Enqueue => s.(writing := None, waitingReqs := s.waitingReqs + [s.writing.value])
    case Serve =>
      var r := c.serve(s.server, s.toServer[0]);
      s.(toServer := s.toServer[1..], server := r.0, toClient := s.toClient + [r.1],
         served := s.served + [s.toServer[0]])
    case Parse => s.(toClient := s.toClient[1..], inHand := Some(s.toClient[0]))
    case Finish =>
      s.(waitingReqs := s.waitingReqs[1..], inHand := None, replies := s.replies[s.waitingReqs[0] := s.inHand.value],
         given := s.given + [s.inHand.value])
    case Return(id) => s.(callers := s.callers[id := Returned(s.replies[id])])
    case Timeout(id) => s.(callers := s.callers[id := GaveUp])
  }

  /** The state after a run; None when some step was not possible. */
  function RunSteps<S>(c: Config<S>, steps: seq<Step>): Option<State<S>>
    decreases |steps|
  {
    if steps == [] then Some(Initial(c))
    else
      var before := RunSteps(c, steps[..|steps| - 1]);
      var step := steps[|steps| - 1];
      if before.Some? && Enabled(before.value, step) then Some(Apply(c, before.value, step)) else None
  }

  // ---- what the server answers

  function ServerAfter<S>(c: Config<S>, reqs: seq<Args>): S {
    if reqs == [] then c.init else c.serve(ServerAfter(c, reqs[..|reqs| - 1]), reqs[|reqs| - 1]).0
  }

  /** The server's replies to a sequence of requests. */
  function Outputs<S>(c: Config<S>, reqs: seq<Args>): (r: seq<Reply>)
    ensures |r| == |reqs|
  {
    if reqs == [] then []
    else
      var before := reqs[..|reqs| - 1];
      Outputs(c, before) + [c.serve(ServerAfter(c, before), reqs[|reqs| - 1]).1]
  }

  lemma {:induction false} OutputsPrefix<S>(c: Config<S>, a: seq<Args>, b: seq<Args>)
    ensures Outputs(c, a + b)[..|a|] == Outputs(c, a)
    decreases |b|
  {
    if b == [] {
      assert a + b == a;
    } else {
      OutputsPrefix(c, a, b[..|b| - 1]);
      assert (a + b)[..|a + b| - 1] == a + b[..|b| - 1];
    }
  }

  function ArgsOf(args: seq<Args>, ids: seq<nat>): (r: seq<Args>)
    requires forall i :: 0 <= i < |ids| ==> ids[i] < |args|
    ensures |r| == |ids| && forall i :: 0 <= i < |r| ==> r[i] == args[ids[i]]
  {
    seq(|ids|, i requires 0 <= i < |ids| => args[ids[i]])
  }

  // ---- the invariant

  function AsSeq<T>(o: Option<T>): seq<T> {
    if o.Some? then [o.value] else []
  }

  ghost predicate Increasing(ids: seq<nat>) {
    forall i, j :: 0 <= i < j < |ids| ==> ids[i] < ids[j]
  }

  ghost predicate Below(ids: seq<nat>, n: nat) {
    forall i :: 0 <= i < |ids| ==> ids[i] < n
  }

  /** Request numbers are used once. */
  ghost predicate Ids<S>(s: State<S>) {
    && |s.callers| == |s.args|
    && Increasing(s.written + s.pendingReqs)
    && Below(s.written + s.pendingReqs, |s.args|)
  }

  ghost predicate WrittenArgs<S>(s: State<S>) {
    && (forall i :: 0 <= i < |s.written| ==> s.written[i] < |s.args|)
    && s.served + s.toServer == ArgsOf(s.args, s.written)
  }

  /** The replies given, held and on the wire are what the server answered, in order. */
  ghost predicate Wire<S>(c: Config<S>, s: State<S>) {
    && s.server == ServerAfter(c, s.served)
    && s.given + AsSeq(s.inHand) + s.toClient == Outputs(c, s.served)
  }

  /** The waiting requests plus the one just written are the written ones without a reply. */
  ghost predicate Pairing<S>(s: State<S>) {
    && |s.given| <= |s.written|
    && s.written[|s.given|..] == s.waitingReqs + AsSeq(s.writing)
    && (forall id :: id in s.replies <==> id in s.written[..|s.given|])
    && (forall k :: 0 <= k < |s.given| ==> s.written[k] in s.replies && s.replies[s.written[k]] == s.given[k])
  }

  /** A caller that has returned got the reply of its own request. */
  ghost predicate Callers<S>(s: State<S>) {
    forall id :: 0 <= id < |s.callers| && s.callers[id].Returned? ==>
      id in s.replies && s.callers[id].reply == s.replies[id]
  }

  ghost predicate Inv<S>(c: Config<S>, s: State<S>) {
    Ids(s) && WrittenArgs(s) && Wire(c, s) && Pairing(s) && Callers(s)
  }

  lemma InitialInv<S>(c: Config<S>)
    ensures Inv(c, Initial(c))
  {
    hide ServerAfter, Outputs;
    NothingServed(c);
    var s := Initial(c);
    assert ArgsOf(s.args, s.written) == [];
  }

  lemma NothingServed<S>(c: Config<S>)
    ensures ServerAfter(c, []) == c.init && Outputs(c, []) == []
  {
  }

  lemma StepIds<S>(c: Config<S>, s: State<S>, step: Step)
    requires Ids(s) && Enabled(s, step)
    ensures Ids(Apply(c, s, step))
  {
    match step
    case Send(request) =>
      assert s.written + (s.pendingReqs + [|s.args|]) == s.written + s.pendingReqs + [|s.args|];
    case Write =>
      var id, rest := s.pendingReqs[0], s.pendingReqs[1..];
      assert s.pendingReqs == [id] + rest;
      Assoc(s.written, [id], rest);
      DropOne(s.written, id, rest, |s.args|);
    case _ =>
  }

  lemma DropOne(a: seq<nat>, id: nat, b: seq<nat>, n: nat)
    requires Increasing(a + [id] + b) && Below(a + [id] + b, n)
    ensures Increasing(a + b) && Below(a + b, n)
  {
    var all, fewer := a + [id] + b, a + b;
    forall i | 0 <= i < |fewer| ensures fewer[i] < n {
      assert fewer[i] == all[if i < |a| then i else i + 1];
    }
    forall i, j | 0 <= i < j < |fewer| ensures fewer[i] < fewer[j] {
      assert fewer[i] == all[if i < |a| then i else i + 1];
      assert fewer[j] == all[if j < |a| then j else j + 1];
    }
  }

  lemma StepWrittenArgs<S>(c: Config<S>, s: State<S>, step: Step)
    requires Ids(s) && WrittenArgs(s) && Enabled(s, step)
    ensures WrittenArgs(Apply(c, s, step))
  {
    hide Increasing;
    var t := Apply(c, s, step);
    match step
    case Send(request) => assert ArgsOf(t.args, t.written) == ArgsOf(s.args, s.written);
    case Write =>
      var id := s.pendingReqs[0];
      if s.args[id] != [] {
        assert ArgsOf(t.args, t.written) == ArgsOf(s.args, s.written) + [s.args[id]];
        Assoc(s.served, s.toServer, [s.args[id]]);
      }
    case Serve =>
      assert s.toServer == [s.toServer[0]] + s.toServer[1..];
      Assoc(s.served, [s.toServer[0]], s.toServer[1..]);
    case _ =>
  }

  lemma StepWire<S>(c: Config<S>, s: State<S>, step: Step)
    requires Wire(c, s) && Enabled(s, step)
    ensures Wire(c, Apply(c, s, step))
  {
    match step
    case Serve =>
      var req := s.toServer[0];
      var served := s.served + [req];
      assert served[..|served| - 1] == s.served;
      Assoc(s.given + AsSeq(s.inHand), s.toClient, [c.serve(s.server, req).1]);
    case Parse =>
      assert s.toClient == [s.toClient[0]] + s.toClient[1..];
      assert s.given + [] + s.toClient == s.given + [s.toClient[0]] + s.toClient[1..];
    case Finish =>
      assert s.given + [s.inHand.value] + [] == s.given + AsSeq(s.inHand);
    case _ =>
  }

  lemma StepPairing<S>(c: Config<S>, s: State<S>, step: Step)
    requires Ids(s) && Pairing(s) && Enabled(s, step)
    ensures Pairing(Apply(c, s, step))
  {
    hide Ids;
    var t, f := Apply(c, s, step), |s.given|;
    match step
    case Write =>
      if s.args[s.pendingReqs[0]] != [] {
        assert t.written[f..] == s.written[f..] + [s.pendingReqs[0]] && t.written[..f] == s.written[..f];
      }
    case Enqueue =>
      assert t.waitingReqs + [] == s.waitingReqs + AsSeq(s.writing);
    case Finish =>
      FinishPairing(c, s);
    case _ =>
  }

  lemma FinishPairing<S>(c: Config<S>, s: State<S>)
    requires Ids(s) && Pairing(s) && Enabled(s, Finish)
    ensures Pairing(Apply(c, s, Finish))
  {
    hide Ids;
    var t, f := Apply(c, s, Finish), |s.given|;
    FinishPairs(s);
    assert t.waitingReqs + AsSeq(t.writing) == (s.waitingReqs + AsSeq(s.writing))[1..] == t.written[f + 1..];
    assert s.written[..f + 1] == s.written[..f] + [s.waitingReqs[0]];
  }

  /** The next waiting request is the first written one without a reply. */
  lemma FinishPairs<S>(s: State<S>)
    requires Ids(s) && Pairing(s) && s.waitingReqs != []
    ensures |s.given| < |s.written| && s.waitingReqs[0] == s.written[|s.given|]
    ensures forall k :: 0 <= k < |s.given| ==> s.written[k] != s.waitingReqs[0]
  {
    var f := |s.given|;
    assert s.waitingReqs[0] == (s.waitingReqs + AsSeq(s.writing))[0] == s.written[f..][0] == s.written[f];
    var all := s.written + s.pendingReqs;
    assert forall k :: 0 <= k < |s.written| ==> all[k] == s.written[k];
  }

  lemma StepCallers<S>(c: Config<S>, s: State<S>, step: Step)
    requires Ids(s) && Pairing(s) && Callers(s) && Enabled(s, step)
    ensures Callers(Apply(c, s, step))
  {
    if step == Finish {
      FinishPairs(s);
      assert s.waitingReqs[0] !in s.replies by {
        assert forall id :: id in s.written[..|s.given|] ==> exists k :: 0 <= k < |s.given| && s.written[k] == id;
      }
    }
  }

  lemma StepInv<S>(c: Config<S>, s: State<S>, step: Step)
    requires Inv(c, s) && Enabled(s, step)
    ensures Inv(c, Apply(c, s, step))
  {
    hide Apply, Enabled, Ids, WrittenArgs, Wire, Pairing, Callers;
    StepIds(c, s, step);
    StepWrittenArgs(c, s, step);
    StepWire(c, s, step);
    StepPairing(c, s, step);
    StepCallers(c, s, step);
  }

  lemma {:induction false} RunInv<S>(c: Config<S>, steps: seq<Step>)
    ensures var r := RunSteps(c, steps); r.Some? ==> Inv(c, r.value)
    decreases |steps|
  {
    hide Inv, Apply, Enabled;
    if steps == [] {
      InitialInv(c);
    } else {
      RunInv(c, steps[..|steps| - 1]);
      var before := RunSteps(c, steps[..|steps| - 1]);
      if before.Some? && Enabled(before.value, steps[|steps| - 1]) {
        StepInv(c, before.value, steps[|steps| - 1]);
      }
    }
  }

  /** In every run, whatever callers time out: the k-th reply belongs to the k-th request
      written, and a caller that returns has the server's answer to its own request. */
  lemma RepliesMatch<S>(c: Config<S>, steps: seq<Step>)
    requires RunSteps(c, steps).Some?
    ensures var s := RunSteps(c, steps).value;
      && WrittenArgs(s) && |s.given| <= |s.written| && |s.callers| == |s.args|
      && s.given == Outputs(c, ArgsOf(s.args, s.written))[..|s.given|]
      && forall id :: 0 <= id < |s.callers| && s.callers[id].Returned? ==>
           exists k :: 0 <= k < |s.given| && s.written[k] == id && s.callers[id].reply == s.given[k]
  {
    hide Apply, Enabled, Outputs, ServerAfter, RunSteps;
    RunInv(c, steps);
    var s := RunSteps(c, steps).value;
    OutputsPrefix(c, s.served, s.toServer);
    var all := s.given + AsSeq(s.inHand) + s.toClient;
    assert all[..|s.given|] == s.given;
    forall id | 0 <= id < |s.callers| && s.callers[id].Returned?
      ensures exists k :: 0 <= k < |s.given| && s.written[k] == id && s.callers[id].reply == s.given[k]
    {
      assert id in s.written[..|s.given|];
      var k :| 0 <= k < |s.given| && s.written[..|s.given|][k] == id;
      assert s.written[k] == id;
    }
  }

  /** No deadlock: while a written request has no reply, the writer, the server or the reader
      can take a step that brings the reply closer. */
  lemma Progress<S>(c: Config<S>, s: State<S>)
    requires Inv(c, s) && |s.given| < |s.written|
    ensures Enabled(s, Enqueue) || Enabled(s, Serve) || Enabled(s, Parse) || Enabled(s, Finish)
  {
    hide Ids, Callers;
    assert |s.served| + |s.toServer| == |s.written|;
    assert |s.given| + |AsSeq(s.inHand)| + |s.toClient| == |s.served|;
    assert |s.waitingReqs| + |AsSeq(s.writing)| == |s.written| - |s.given|;
  }

  // ---- everybody gets an answer

  /** A step of the writer, the server or the reader, or a caller that sees its reply. */
  predicate Serving(step: Step) {
    !step.Send? && !step.Timeout?
  }

  /** Requests with arguments are not forgotten before they are written. */
  ghost predicate Queued<S>(s: State<S>) {
    forall id :: 0 <= id < |s.args| && s.args[id] != [] ==> id in s.written + s.pendingReqs
  }

  lemma StepQueued<S>(c: Config<S>, s: State<S>, step: Step)
    requires Queued(s) && Ids(s) && Enabled(s, step)
    ensures Queued(Apply(c, s, step))
  {
    hide Increasing;
    var t := Apply(c, s, step);
    if step.Write? {
      assert s.pendingReqs == [s.pendingReqs[0]] + s.pendingReqs[1..];
      assert forall id :: id in s.written + s.pendingReqs ==> id in s.written || id in s.pendingReqs;
    }
  }

  lemma {:induction false} RunQueued<S>(c: Config<S>, steps: seq<Step>)
    ensures var r := RunSteps(c, steps); r.Some? ==> Queued(r.value)
    decreases |steps|
  {
    hide Apply, Enabled, Queued, Ids;
    if steps == [] {
      assert Queued(Initial(c)) by { NothingQueued(c); }
    } else {
      var before := RunSteps(c, steps[..|steps| - 1]);
      RunQueued(c, steps[..|steps| - 1]);
      RunInv(c, steps[..|steps| - 1]);
      if before.Some? && Enabled(before.value, steps[|steps| - 1]) {
        assert Ids(before.value) by { InvIds(c, before.value); }
        StepQueued(c, before.value, steps[|steps| - 1]);
      }
    }
  }

  lemma NothingQueued<S>(c: Config<S>)
    ensures Queued(Initial(c))
  {
  }

  lemma InvIds<S>(c: Config<S>, s: State<S>)
    requires Inv(c, s)
    ensures Ids(s)
  {
  }

  /** The callers that still wait although their reply is there. */
  ghost function Unaware<S>(s: State<S>): set<nat> {
    set id: nat | id < |s.callers| && s.callers[id] == Blocked && id in s.replies
  }

  /** The work left: how far every request is from its caller. */
  ghost function Work<S>(s: State<S>): nat {
    10 * |s.pendingReqs| + 2 * |AsSeq(s.writing)| + 4 * |s.toServer| + 3 * |s.toClient|
    + 2 * |AsSeq(s.inHand)| + |s.waitingReqs| + |Unaware(s)|
  }

  /** No request is on its way, and nobody waits for a reply who has sent anything. */
  ghost predicate AllAnswered<S>(s: State<S>) {
    && s.pendingReqs == [] && s.writing == None && s.waitingReqs == [] && s.toServer == [] && s.toClient == []
    && s.inHand == None
    && forall id :: 0 <= id < |s.callers| && |s.callers| == |s.args| && s.args[id] != [] ==> s.callers[id] != Blocked
  }

  lemma LessWork<S>(c: Config<S>, s: State<S>, step: Step)
    requires Inv(c, s) && Enabled(s, step) && Serving(step)
    ensures Work(Apply(c, s, step)) < Work(s)
  {
    hide Ids, WrittenArgs, Wire, Pairing, Callers, Unaware;
    UnawareAfter(c, s, step);
  }

  lemma UnawareAfter<S>(c: Config<S>, s: State<S>, step: Step)
    requires Enabled(s, step) && Serving(step)
    ensures var n := |Unaware(Apply(c, s, step))|;
            if step.Finish? then n <= |Unaware(s)| + 1
            else if step.Return? then n < |Unaware(s)|
            else n == |Unaware(s)|
  {
    var t := Apply(c, s, step);
    match step
    case Finish =>
      assert Unaware(t) <= Unaware(s) + {s.waitingReqs[0]};
      SmallUnion(Unaware(s), s.waitingReqs[0], Unaware(t));
    case Return(id) =>
      assert Unaware(t) == Unaware(s) - {id} && id in Unaware(s);
    case Write | Enqueue | Serve | Parse =>
      assert Unaware(t) == Unaware(s);
    case _ =>
  }

  lemma SmallUnion(a: set<nat>, x: nat, b: set<nat>)
    requires b <= a + {x}
    ensures |b| <= |a| + 1
  {
    assert |a + {x}| <= |a| + 1;
    SubsetSize(b, a + {x});
  }

  lemma {:induction false} SubsetSize(a: set<nat>, b: set<nat>)
    requires a <= b
    ensures |a| <= |b|
    decreases a
  {
    if a != {} {
      var x :| x in a;
      SubsetSize(a - {x}, b - {x});
    }
  }

  /** While somebody has not been answered, some step can be taken without a new request. */
  lemma NextStep<S>(c: Config<S>, s: State<S>) returns (step: Step)
    requires Inv(c, s) && Queued(s) && !AllAnswered(s)
    ensures Enabled(s, step) && Serving(step)
  {
    hide WrittenArgs, Wire, Pairing, Callers, Increasing;
    if |s.given| < |s.written| {
      Progress(c, s);
      step := if Enabled(s, Enqueue) then Enqueue else if Enabled(s, Serve) then Serve
              else if Enabled(s, Parse) then Parse else Finish;
    } else {
      NothingOnTheWay(c, s);
      if s.pendingReqs != [] {
        assert (s.written + s.pendingReqs)[|s.written|] == s.pendingReqs[0];
        step := Write;
      } else {
        var id :| 0 <= id < |s.callers| && s.args[id] != [] && s.callers[id] == Blocked;
        assert s.written + s.pendingReqs == s.written;
        WrittenReplied(c, s, id);
        step := Return(id);
      }
    }
  }

  lemma NothingOnTheWay<S>(c: Config<S>, s: State<S>)
    requires Inv(c, s) && |s.given| >= |s.written|
    ensures s.writing == None && s.waitingReqs == [] && s.toServer == [] && s.toClient == [] && s.inHand == None
  {
    hide Ids, Callers;
    assert |s.waitingReqs| + |AsSeq(s.writing)| == |s.written[|s.given|..]| == 0;
    assert |s.served| + |s.toServer| == |s.written|;
    assert |s.given| + |AsSeq(s.inHand)| + |s.toClient| == |s.served|;
  }

  lemma WrittenReplied<S>(c: Config<S>, s: State<S>, id: nat)
    requires Inv(c, s) && |s.given| >= |s.written| && id in s.written
    ensures id in s.replies
  {
    hide Ids, Callers, WrittenArgs, Wire;
    assert s.written[..|s.given|] == s.written;
  }

  /** From every reachable state, writer, server and reader can bring every request to its end without
      anything new being sent: everybody who has sent something and has not given up has returned. */
  lemma {:induction false} EverybodyIsAnswered<S>(c: Config<S>, steps: seq<Step>) returns (more: seq<Step>)
    requires RunSteps(c, steps).Some?
    ensures (forall step <- more :: Serving(step)) && RunSteps(c, steps + more).Some?
    ensures AllAnswered(RunSteps(c, steps + more).value)
    ensures RunSteps(c, steps + more).value.args == RunSteps(c, steps).value.args
    decreases Work(RunSteps(c, steps).value)
  {
    hide Inv, Queued, AllAnswered, Enabled, Apply, Work;
    var s := RunSteps(c, steps).value;
    RunInv(c, steps);
    RunQueued(c, steps);
    if AllAnswered(s) {
      more := [];
      assert steps + more == steps;
    } else {
      var step := NextStep(c, s);
      LessWork(c, s, step);
      SameArgs(c, s, step);
      assert (steps + [step])[..|steps|] == steps;
      more := EverybodyIsAnswered(c, steps + [step]);
      more := [step] + more;
      assert steps + more == steps + [step] + more[1..];
    }
  }

  lemma SameArgs<S>(c: Config<S>, s: State<S>, step: Step)
    requires Enabled(s, step) && Serving(step)
    ensures Apply(c, s, step).args == s.args
  {
  }

  /** At the start, 256 requests can be sent before any of them is written, and no more. */
  lemma {:induction false} SendsAhead<S>(c: Config<S>, requests: seq<Args>)
    ensures RunSteps(c, SendAll(requests)).Some? <==> |requests| <= 256
    ensures RunSteps(c, SendAll(requests)).Some? ==>
      |RunSteps(c, SendAll(requests)).value.pendingReqs| == |requests|
    decreases |requests|
  {
    if requests != [] {
      var n := |requests| - 1;
      SendsAhead(c, requests[..n]);
      assert SendAll(requests)[..n] == SendAll(requests[..n]);
    }
  }

  function SendAll(requests: seq<Args>): (r: seq<Step>)
    ensures |r| == |requests| && forall i :: 0 <= i < |r| ==> r[i] == Send(requests[i])
  {
    seq(|requests|, i requires 0 <= i < |requests| => Send(requests[i]))
  }

  // ---- the same run in bytes

  /** Requests as the messages that doRequest prints. */
  function AsMessages(reqs: seq<Args>): (r: seq<Reply>)
    ensures |r| == |reqs| && forall i :: 0 <= i < |r| ==> r[i] == MultiBulk(Present(reqs[i]))
  {
    seq(|reqs|, i requires 0 <= i < |reqs| => MultiBulk(Present(reqs[i])))
  }

  /** Whoever reads the printed messages reads exactly these, one by one, and then the end. */
  predicate ReadWhole(messages: seq<Reply>) {
    Parser.Parse(PrintAll(messages)).payloads == RoundTrip.Each(messages)
  }

  /** What one caller sees depends on what the parsers make of the bytes: in any run, the server
      reads exactly the requests written and the client exactly the replies to them, one by one, if
      and only if every argument written is non-empty and does not start with `$` and every reply is
      wire-safe and leaves nothing behind. Then the k-th reply read belongs to the k-th request. */
  lemma BytePairing<S>(c: Config<S>, steps: seq<Step>)
    requires RunSteps(c, steps).Some?
    ensures var s := RunSteps(c, steps).value;
      && WrittenArgs(s) && |s.given| <= |s.written|
      && var reqs := ArgsOf(s.args, s.written);
         var outs := Outputs(c, reqs);
      && (ReadWhole(AsMessages(reqs)) && ReadWhole(outs) <==>
            (forall i :: 0 <= i < |reqs| ==> RoundTrip.PlainLine(reqs[i]))
            && forall i :: 0 <= i < |outs| ==> RoundTrip.Clean(outs[i]))
      && s.given == outs[..|s.given|]
  {
    hide Apply, Enabled, RunSteps, Outputs, ServerAfter, ReadWhole, RoundTrip.Clean, RoundTrip.PlainLine;
    RepliesMatch(c, steps);
    var s := RunSteps(c, steps).value;
    var reqs := ArgsOf(s.args, s.written);
    MessagesIff(reqs);
    WholeIff(Outputs(c, reqs));
  }

  lemma WholeIff(messages: seq<Reply>)
    ensures ReadWhole(messages) <==> forall i :: 0 <= i < |messages| ==> RoundTrip.Clean(messages[i])
  {
    hide RoundTrip.Clean, Parser.Parse, PrintAll, RoundTrip.Each;
    RoundTrip.StreamIff(messages);
  }

  lemma MessagesIff(reqs: seq<Args>)
    ensures ReadWhole(AsMessages(reqs)) <==> forall i :: 0 <= i < |reqs| ==> RoundTrip.PlainLine(reqs[i])
  {
    hide ReadWhole, RoundTrip.Clean, RoundTrip.PlainLine;
    WholeIff(AsMessages(reqs));
    forall i | 0 <= i < |reqs| ensures RoundTrip.PlainLine(reqs[i]) <==> RoundTrip.Clean(AsMessages(reqs)[i]) {
      RoundTrip.PlainIsClean(reqs[i]);
    }
  }
}
