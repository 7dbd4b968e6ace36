/** One pooled connection between two members of a cluster, over its whole life (cluster/com.go,
    cluster/client_pool.go): relays borrow it one after the other, each sends SELECT and its line, and
    heartbeats come in between. */
module PeerConnections {
  import opened Bytes
  import opened Reply
  import opened Commands
  import LogCompleteness
  import opened RoundTrip
  import opened Cluster
  import Client

  const PING: CmdLine := ["PING"]

  /** What the peer does with a request; it executes every line on keys it owns itself. */
  ghost function ServeAt(c: Config, peer: Bytes, dbs: Databases, args: Client.Args): (Databases, Reply)
    requires peer in c.peers
  {
    if args == [] || dbs.Keys != c.peers.Keys then (dbs, UnknownError())
    else
      match Handle(c, dbs, peer, args, 0)
      case None => (dbs, UnknownError())
      case Some(r) => r
  }

  /** The peer as the server behind the connection. */
  ghost function PeerOf(c: Config, peer: Bytes, dbs: Databases): Client.Config<Databases>
    requires peer in c.peers
  {
    Client.Config((d, args) => ServeAt(c, peer, d, args), dbs)
  }

  /** What members send to this peer: heartbeats, the SELECT of each relay, and supported lines whose
      keys it owns. */
  ghost predicate Sendable(c: Config, peer: Bytes, line: Client.Args)
    requires peer in c.peers
  {
    line == PING || line == SELECT_ZERO
    || (|line| >= 2 && Supported(line) && CommonOwner(c, peer, line) && Owner(c, peer, line[1]) == peer)
  }

  ghost predicate AllSendable(c: Config, peer: Bytes, lines: seq<Client.Args>)
    requires peer in c.peers
  {
    forall i :: 0 <= i < |lines| ==> Sendable(c, peer, lines[i])
  }

  /** One server that refuses SELECT. */
  ghost function OneReply(c: Config, peer: Bytes, ks: Keyspace, line: Client.Args): (Keyspace, Reply)
    requires peer in c.peers
  {
    if line == [] then (ks, UnknownError())
    else if line == SELECT_ZERO then (ks, NotSupported("select"))
    else OneServer(c, peer, ks, line)
  }

  ghost function OneAfter(c: Config, peer: Bytes, ks: Keyspace, lines: seq<Client.Args>): Keyspace
    requires peer in c.peers
  {
    if lines == [] then ks
    else OneReply(c, peer, OneAfter(c, peer, ks, lines[..|lines| - 1]), lines[|lines| - 1]).0
  }

  /** Its replies to the lines, one by one. */
  ghost function OneReplies(c: Config, peer: Bytes, ks: Keyspace, lines: seq<Client.Args>): (r: seq<Reply>)
    requires peer in c.peers
    ensures |r| == |lines|
  {
    if lines == [] then []
    else
      var before := lines[..|lines| - 1];
      OneReplies(c, peer, ks, before)
      + [OneReply(c, peer, OneAfter(c, peer, ks, before), lines[|lines| - 1]).1]
  }

  // ---- request by request

  lemma PingAnswers(ks: Keyspace)
    ensures Exec(ks, PING).0 == Unchanged(ks, Status("PONG")) && RouteOf(ToLower(PING[0])) == Here
  {
    LogCompleteness.PingFinds();
    assert "PING"[1..] == "ING" && "ING"[1..] == "NG" && "NG"[1..] == "G";
    assert ToLower("PING") == "ping";
  }

  /** One request: the peer answers as the one server does, and goes on representing it. */
  lemma ServesOne(c: Config, peer: Bytes, dbs: Databases, ks: Keyspace, line: Client.Args)
    requires c.Valid() && peer in c.peers && Represents(c, dbs, ks) && Sendable(c, peer, line)
    ensures var r, one := ServeAt(c, peer, dbs, line), OneReply(c, peer, ks, line);
            Represents(c, r.0, one.0) && r.1 == one.1 && !one.1.MultiBulk?
  {
    hide Handle, Exec, Represents, ToLower, RouteOf, NotSupported, ArityError, SplitRename, PING, WireSafe;
    SameMembers(c, dbs, ks);
    if line == SELECT_ZERO {
      SelectIsRefused(c, dbs, peer, "0", 0);
      RefusalIsError();
    } else if line == PING {
      PingHere(c, dbs, ks, peer);
    } else {
      HandleAtOwner(c, dbs, peer, line, 0);
      OwnKeys(c, peer, line);
      LocalStep(c, dbs, ks, peer, line);
    }
  }

  lemma RefusalIsError()
    ensures NotSupported("select").Err?
  {
  }

  lemma OwnKeys(c: Config, peer: Bytes, line: CmdLine)
    requires peer in c.peers && |line| >= 2 && CommonOwner(c, peer, line) && Owner(c, peer, line[1]) == peer
    ensures forall k :: k in LineKeys(line) ==> Owner(c, peer, k) == peer
  {
    hide ToLower, RouteOf;
  }

  lemma PingHere(c: Config, dbs: Databases, ks: Keyspace, peer: Bytes)
    requires peer in c.peers && Represents(c, dbs, ks)
    ensures Handle(c, dbs, peer, PING, 0) == Some((dbs, Status("PONG")))
    ensures OneServer(c, peer, ks, PING) == (ks, Status("PONG"))
  {
    hide Exec, ToLower, RouteOf, PING;
    PingAnswers(ks);
    PingAnswers(dbs[peer]);
    assert dbs[peer := dbs[peer]] == dbs;
  }

  lemma SendableBefore(c: Config, peer: Bytes, lines: seq<Client.Args>)
    requires peer in c.peers && AllSendable(c, peer, lines) && lines != []
    ensures AllSendable(c, peer, lines[..|lines| - 1]) && Sendable(c, peer, lines[|lines| - 1])
  {
    hide Sendable;
  }

  /** Any number of requests. */
  lemma {:induction false} ServesAll(c: Config, peer: Bytes, dbs: Databases, ks: Keyspace, lines: seq<Client.Args>)
    requires c.Valid() && peer in c.peers && Represents(c, dbs, ks) && AllSendable(c, peer, lines)
    ensures Represents(c, Client.ServerAfter(PeerOf(c, peer, dbs), lines), OneAfter(c, peer, ks, lines))
    ensures Client.Outputs(PeerOf(c, peer, dbs), lines) == OneReplies(c, peer, ks, lines)
    ensures forall r <- OneReplies(c, peer, ks, lines) :: !r.MultiBulk?
    decreases |lines|
  {
    hide Represents, ServeAt, OneReply, AllSendable, Sendable, Config.Valid;
    if lines != [] {
      var before, line := lines[..|lines| - 1], lines[|lines| - 1];
      SendableBefore(c, peer, lines);
      ServesAll(c, peer, dbs, ks, before);
      ServesOne(c, peer, Client.ServerAfter(PeerOf(c, peer, dbs), before), OneAfter(c, peer, ks, before), line);
    }
  }

  // ---- whole runs

  /** Over the life of a pooled connection, whatever callers do at the same time and whoever gives up:
      the k-th reply read is that of one server to the k-th request written, and a caller that
      returns has the reply to its own request. */
  lemma RelaysMatch(c: Config, peer: Bytes, dbs: Databases, ks: Keyspace, steps: seq<Client.Step>)
    requires c.Valid() && peer in c.peers && Represents(c, dbs, ks)
    requires Client.RunSteps(PeerOf(c, peer, dbs), steps).Some?
    requires var s := Client.RunSteps(PeerOf(c, peer, dbs), steps).value;
             forall i :: 0 <= i < |s.args| ==> Sendable(c, peer, s.args[i])
    ensures var s := Client.RunSteps(PeerOf(c, peer, dbs), steps).value;
      && Client.WrittenArgs(s) && |s.given| <= |s.written| && |s.callers| == |s.args|
      && var replies := OneReplies(c, peer, ks, Client.ArgsOf(s.args, s.written));
         && s.given == replies[..|s.given|]
         && forall id :: 0 <= id < |s.callers| && s.callers[id].Returned? ==>
              exists k :: 0 <= k < |s.given| && s.written[k] == id && s.callers[id].reply == replies[k]
  {
    hide Client.RunSteps, PeerOf, Sendable, Represents, Client.Outputs, OneReplies;
    Client.RepliesMatch(PeerOf(c, peer, dbs), steps);
    var s := Client.RunSteps(PeerOf(c, peer, dbs), steps).value;
    ServesAll(c, peer, dbs, ks, Client.ArgsOf(s.args, s.written));
  }

  /** The same connection in bytes: both ends read exactly what was printed, message by message, if
      and only if no argument is empty or starts with `$` and every reply is wire-safe. */
  lemma RelaysReadIff(c: Config, peer: Bytes, ks: Keyspace, dbs: Databases, lines: seq<Client.Args>)
    requires c.Valid() && peer in c.peers && Represents(c, dbs, ks) && AllSendable(c, peer, lines)
    ensures var replies := OneReplies(c, peer, ks, lines);
            Client.ReadWhole(Client.AsMessages(lines)) && Client.ReadWhole(replies) <==>
            (forall i :: 0 <= i < |lines| ==> PlainLine(lines[i]))
            && forall i :: 0 <= i < |replies| ==> WireSafe(replies[i])
  {
    hide *;
    ServesAll(c, peer, dbs, ks, lines);
    Client.MessagesIff(lines);
    Client.WholeIff(OneReplies(c, peer, ks, lines));
    NoLists(OneReplies(c, peer, ks, lines));
  }

  lemma NoLists(replies: seq<Reply>)
    requires forall r <- replies :: !r.MultiBulk?
    ensures (forall i :: 0 <= i < |replies| ==> Clean(replies[i])) <==>
            forall i :: 0 <= i < |replies| ==> WireSafe(replies[i])
  {
    hide WireSafe;
    assert forall i :: 0 <= i < |replies| ==> replies[i] in replies && (Clean(replies[i]) <==> WireSafe(replies[i]));
  }
}
