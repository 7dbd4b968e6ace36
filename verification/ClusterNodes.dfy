/** The members of a cluster as they run (package cluster): each has a server in memory and a hash
    ring of its own, and a request is executed in place or relayed to a peer. */
module ClusterNodes {
  import opened Bytes
  import opened Reply
  import opened Commands
  import LogCompleteness
  import Standalone
  import opened ConsistentHash
  import opened Cluster
  import RoundTrip
  import D = ConcurrentDict
  import Database
  import Server
  import Aof
  import Parser

  class Member {
    const self: Bytes
    const peerPicker: NodeMap
    const db: Server.StandaloneDatabase

    /** MakeClusterDatabase, with append-only or without; the append-only file is empty. */
    constructor (fn: Hash, dictHash: D.Hash, databases: nat, appendOnly: bool, self: Bytes, peers: seq<Bytes>)
      ensures this.self == self && fresh(db.Repr) && db.Valid() &&
              db.views == Standalone.Empty(Server.DbCount(databases))
      ensures db.aofHandler != null <==> appendOnly
      ensures fresh(peerPicker) && peerPicker !in db.Repr && peerPicker.Valid()
      ensures peerPicker.hashFunc == fn && peerPicker.nodehashMap == AddAll(fn, map[], peers + [self])
    {
      hide Server.StandaloneDatabase.Valid, Aof.Loads, Parser.Parse, Standalone.Empty;
      var nodes, picker := MakePicker(fn, self, peers);
      this.self, peerPicker := self, picker;
      var mdb, returned := Server.NewStandaloneDatabase(dictHash, databases, appendOnly, []);
      if appendOnly {
        Server.ParseEmpty();
        Server.FreshStart(Server.DbCount(databases), mdb.views);
      }
      db := mdb;
    }
  }

  /** makeRouter fills the table entry by entry. */
  method MakeRouter() returns (router: map<Bytes, Route>)
    ensures forall name :: RouteOf(name) == if name in router then router[name] else NoRoute
    ensures forall name :: name in router ==> router[name] != NoRoute
  {
    router := map[];
    router := router["ping" := Here];
    router := router["del" := Broadcast];
    router := router["exists" := ToOwner];
    router := router["type" := ToOwner];
    router := router["rename" := ToCommonOwner];
    router := router["renamenx" := ToCommonOwner];
    router := router["set" := ToOwner];
    router := router["setnx" := ToOwner];
    router := router["get" := ToOwner];
    router := router["getset" := ToOwner];
    router := router["flushdb" := Broadcast];
  }

  /** What is executed in place: PING, and commands on keys that draw nothing at random. */
  predicate Routed(line: CmdLine) {
    var route := RouteOf(ToLower(line[0]));
    route == Here || route == ToOwner || route == ToCommonOwner
  }

  lemma RoutedIsPlain(ks: Keyspace, line: CmdLine)
    requires Routed(line)
    ensures !Standalone.IsSelect(line) && LineDraws(ks, line) == NoDraw && Exec(ks, line).0.answer.Plain?
  {
    hide ToLower, Lookup, RouteOf, ArityError, WrongType, LogName, SetPolicy;
    var name := ToLower(line[0]);
    RouteNames(name);
    LogCompleteness.PingFinds();
    if RouteOf(name) != Here {
      RoutedNames(name);
    }
  }

  lemma RouteNames(name: Bytes)
    ensures RouteOf(name) == Here ==> name == "ping"
    ensures RouteOf("select") == NoRoute
  {
    assert "select"[2] == 'l';
  }

  /** A routed line on a new connection, as ExecOn says, is a line on database 0. */
  lemma RoutedOn(dbs: seq<Keyspace>, line: CmdLine, draw: seq<Bytes>)
    requires Routed(line) && dbs != [] && Standalone.PossibleOn(dbs, 0, line, draw)
    ensures var e := Exec(dbs[0], line).0;
            var on := Standalone.ExecOn(dbs, 0, line, draw);
      && on.dbs == dbs[0 := e.ks] && on.answer == e.answer && e.answer.Plain?
      && forall r :: Database.Answers(r, e.answer) <==> r == e.answer.reply
  {
    hide Routed, ExecBy, LineDraws;
    RoutedIsPlain(dbs[0], line);
  }

  /** cluster.db.Exec: a routed line on one server, from a connection at database 0. */
  method ExecHere(db: Server.StandaloneDatabase, line: CmdLine) returns (r: Reply)
    requires db.Valid() && |db.views| > 0 && Routed(line)
    modifies db.Repr
    ensures db.Valid() && fresh(db.Repr - old(db.Repr)) && db in db.Repr && |db.views| > 0
    ensures var e := Exec(old(db.views[0]), line).0;
            db.views[0] == e.ks && e.answer.Plain? && r == e.answer.reply
  {
    hide Server.StandaloneDatabase.Valid, Standalone.ExecOn, Standalone.PossibleOn, Exec, Routed, Database.Answers;
    var conn := new Server.Connection();
    ghost var views := db.views;
    ghost var draw;
    r, draw := db.Exec(conn, line);
    RoutedOn(views, line, draw);
    InOwnMemory(db);
  }

  lemma InOwnMemory(db: Server.StandaloneDatabase)
    requires db.Valid()
    ensures db in db.Repr
  {
  }

  /** A member that has just started. */
  ghost predicate Started(c: Config, m: Member, n: Bytes)
    reads m.peerPicker, m.db, m.db.Repr
  {
    && n in c.peers && m.self == n && m.peerPicker.Valid() && m.peerPicker !in m.db.Repr
    && m.peerPicker.hashFunc == c.hash && m.peerPicker.nodehashMap == c.RingAt(n)
    && m.db.Valid() && m.db in m.db.Repr && |m.db.views| > 0 && m.db.views[0] == map[]
  }

  ghost function ObjectsOf(m: Member): set<object>
    reads m.db
  {
    {m.peerPicker} + m.db.Repr
  }

  method Start(c: Config, dictHash: D.Hash, databases: nat, appendOnly: bool, n: Bytes) returns (m: Member)
    requires n in c.peers
    ensures Started(c, m, n) && fresh(ObjectsOf(m))
  {
    hide Server.StandaloneDatabase.Valid;
    m := new Member(c.hash, dictHash, databases, appendOnly, n, c.peers[n]);
    InOwnMemory(m.db);
  }

  /** All the configured members start. */
  method StartAll(c: Config, dictHash: D.Hash, databases: nat, appendOnly: bool)
    returns (members: map<Bytes, Member>, ghost r: set<object>)
    ensures members.Keys == c.peers.Keys && fresh(r)
    ensures forall n :: n in members ==> Started(c, members[n], n) && ObjectsOf(members[n]) <= r
    ensures forall a, b :: a in members && b in members && a != b ==> ObjectsOf(members[a]) !! ObjectsOf(members[b])
  {
    hide Started, ObjectsOf;
    members, r := map[], {};
    var rest := c.peers.Keys;
    while rest != {}
      invariant rest <= c.peers.Keys && members.Keys == c.peers.Keys - rest && fresh(r)
      invariant forall n :: n in members ==> Started(c, members[n], n) && ObjectsOf(members[n]) <= r
      invariant forall a, b :: a in members && b in members && a != b ==> ObjectsOf(members[a]) !! ObjectsOf(members[b])
      decreases rest
    {
      var n :| n in rest;
      var m := Start(c, dictHash, databases, appendOnly, n);
      members := members[n := m];
      r := r + ObjectsOf(m);
      rest := rest - {n};
    }
  }

  lemma MembersRun(c: Config, ms: map<Bytes, Member>, r: set<object>)
    requires forall n :: n in ms ==> Started(c, ms[n], n) && ObjectsOf(ms[n]) <= r
    ensures forall n :: n in ms ==>
      && n in c.peers && ms[n].self == n && ms[n].peerPicker.Valid() && ms[n].db.Valid() && |ms[n].db.views| > 0
      && ms[n].peerPicker.hashFunc == c.hash && ms[n].peerPicker.nodehashMap == c.RingAt(n)
      && ms[n].db.views[0] == map[]
    ensures forall n :: n in ms ==>
      ms[n].peerPicker in r && ms[n].db in r && ms[n].db in ms[n].db.Repr && ms[n].db.Repr <= r
  {
    hide Server.StandaloneDatabase.Valid, Config.RingAt;
  }

  lemma MembersApart(c: Config, ms: map<Bytes, Member>, r: set<object>)
    requires forall n :: n in ms ==> Started(c, ms[n], n) && ObjectsOf(ms[n]) <= r
    requires forall a, b :: a in ms && b in ms && a != b ==> ObjectsOf(ms[a]) !! ObjectsOf(ms[b])
    ensures forall a, b :: a in ms && b in ms ==> ms[a].peerPicker !in ms[b].db.Repr
    ensures forall a, b :: a in ms && b in ms && a != b ==> ms[a].db.Repr !! ms[b].db.Repr
  {
    hide Server.StandaloneDatabase.Valid, Config.RingAt;
    forall a, b | a in ms && b in ms ensures ms[a].peerPicker !in ms[b].db.Repr {
      if a != b {
        assert ObjectsOf(ms[a]) !! ObjectsOf(ms[b]);
      }
    }
  }

  /** The processes of a cluster, with what they hold in their first database. */
  class Network {
    const config: Config
    const members: map<Bytes, Member>
    ghost var held: Databases
    ghost var Repr: set<object>

    /** A member runs under its own name, with the ring it has built. */
    ghost predicate Runs(m: Member, n: Bytes)
      requires n in config.peers
      reads m.peerPicker, m.db, m.db.Repr
    {
      && m.self == n && m.peerPicker.Valid()
      && m.peerPicker.hashFunc == config.hash && m.peerPicker.nodehashMap == config.RingAt(n)
      && m.db.Valid() && |m.db.views| > 0
    }

    /** Every member is part of the network. */
    ghost predicate Contained()
      reads this, Repr
    {
      && this in Repr && members.Keys == config.peers.Keys == held.Keys
      && forall n :: n in members ==>
           && members[n].peerPicker in Repr && members[n].db in Repr && members[n].db.Repr <= Repr
           && this !in members[n].db.Repr && members[n].db in members[n].db.Repr
    }

    /** No two members share memory. */
    ghost predicate Disjoint()
      reads this, Repr
    {
      && Contained()
      && (forall a, b :: a in members && b in members ==> members[a].peerPicker !in members[b].db.Repr)
      && (forall a, b :: a in members && b in members && a != b ==> members[a].db.Repr !! members[b].db.Repr)
    }

    /** Every configured member runs, and no two share memory. */
    ghost predicate Valid()
      reads this, Repr
    {
      && Contained() && Disjoint()
      && forall n :: n in members ==> Runs(members[n], n) && members[n].db.views[0] == held[n]
    }

    constructor (c: Config, dictHash: D.Hash, databases: nat, appendOnly: bool)
      ensures Valid() && fresh(Repr) && config == c && members.Keys == c.peers.Keys
      ensures Represents(c, held, map[])
    {
      hide Server.StandaloneDatabase.Valid, Started, ObjectsOf;
      var ms, r := StartAll(c, dictHash, databases, appendOnly);
      config, members, held := c, ms, map n | n in c.peers :: map[];
      Repr := {this} + r;
      new;
      hide Valid;
      Assembled(r);
      StartsEmpty(c);
    }

    lemma Assembled(r: set<object>)
      requires this !in r && Repr == {this} + r && members.Keys == config.peers.Keys == held.Keys
      requires forall n :: n in members ==>
               Started(config, members[n], n) && ObjectsOf(members[n]) <= r && held[n] == map[]
      requires forall a, b :: a in members && b in members && a != b ==> ObjectsOf(members[a]) !! ObjectsOf(members[b])
      ensures Valid()
    {
      hide Server.StandaloneDatabase.Valid, Started, ObjectsOf;
      MembersRun(config, members, r);
      MembersApart(config, members, r);
    }

    /** The owner that the binary search of a member's ring finds. */
    method Pick(at: Bytes, key: Bytes) returns (peer: Bytes)
      requires Valid() && at in members
      ensures at in config.peers && peer == Owner(config, at, key)
    {
      hide Server.StandaloneDatabase.Valid;
      assert Runs(members[at], at);
      peer := members[at].peerPicker.PickNode(key);
      OwnerUnique(config.RingAt(at), config.hash(key), peer, Owner(config, at, key));
    }

    lemma MemberRuns(at: Bytes)
      requires Valid() && at in members
      ensures at in config.peers && at in held && Runs(members[at], at) && members[at].db.views[0] == held[at]
      ensures this in Repr && members[at].db.Repr <= Repr && this !in members[at].db.Repr
      ensures members[at].peerPicker !in members[at].db.Repr
      ensures members[at].db.Valid() && |members[at].db.views| > 0
    {
      hide Server.StandaloneDatabase.Valid;
    }

    /** Another member is as it was. */
    twostate predicate Same(n: Bytes)
      requires n in members && n in config.peers
      reads members[n].peerPicker, members[n].db, members[n].db.Repr
    {
      && members[n].db.Repr == old(members[n].db.Repr) && members[n].db.views == old(members[n].db.views)
      && Runs(members[n], n)
    }

    /** Executing a line on a member's own server leaves the other members alone. */
    method ExecInside(at: Bytes, line: CmdLine) returns (r: Reply)
      requires Valid() && at in members && Routed(line)
      modifies this, members[at].db.Repr
      ensures at in config.peers && at in old(held) && Runs(members[at], at)
      ensures Repr == old(Repr) + members[at].db.Repr && held == old(held)[at := members[at].db.views[0]]
      ensures fresh(members[at].db.Repr - old(members[at].db.Repr)) && members[at].db in members[at].db.Repr
      ensures forall n :: n in members && n != at ==> n in config.peers && Same(n)
      ensures var e := Exec(old(held)[at], line).0;
              members[at].db.views[0] == e.ks && e.answer.Plain? && r == e.answer.reply
    {
      hide Server.StandaloneDatabase.Valid, Exec, Routed, Runs;
      MemberRuns(at);
      var db := members[at].db;
      r := ExecHere(db, line);
      Repr := Repr + db.Repr;
      held := held[at := db.views[0]];
      RunsNow(at);
      forall n | n in members && n != at ensures n in config.peers && Same(n) {
        assert old(members[n].db.Repr !! members[at].db.Repr);
        StillRuns(n);
      }
    }

    /** A member that has executed something still runs: its name and its ring are as they were. */
    twostate lemma RunsNow(at: Bytes)
      requires at in members && at in config.peers && old(Runs(members[at], at)) && unchanged(members[at].peerPicker)
      requires members[at].db.Valid() && |members[at].db.views| > 0
      ensures Runs(members[at], at)
    {
      hide Server.StandaloneDatabase.Valid;
    }

    /** A member whose memory has not changed still runs. */
    twostate lemma StillRuns(n: Bytes)
      requires n in members && n in config.peers && old(Runs(members[n], n))
      requires unchanged(members[n].peerPicker) && unchanged(members[n].db)
      requires forall o: object :: o in old(members[n].db.Repr) ==> unchanged(o)
      ensures Same(n)
    {
      hide Server.StandaloneDatabase.Valid;
    }

    twostate lemma StayContained(at: Bytes)
      requires old(Contained()) && at in members && members[at].db in members[at].db.Repr
      requires this !in old(members[at].db.Repr) && fresh(members[at].db.Repr - old(members[at].db.Repr))
      requires Repr == old(Repr) + members[at].db.Repr && held.Keys == old(held).Keys
      requires forall n :: n in members && n != at ==> n in config.peers && Same(n)
      ensures Contained()
    {
      hide Runs;
    }

    twostate lemma StayDisjoint(at: Bytes)
      requires old(Disjoint()) && Contained() && at in members
      requires fresh(members[at].db.Repr - old(members[at].db.Repr))
      requires forall n :: n in members && n != at ==> n in config.peers && Same(n)
      ensures Disjoint()
    {
      hide Runs;
      forall a, b | a in members && b in members ensures members[a].peerPicker !in members[b].db.Repr {
        assert old(members[a].peerPicker !in members[b].db.Repr);
      }
      forall a, b | a in members && b in members && a != b ensures members[a].db.Repr !! members[b].db.Repr {
        assert old(members[a].db.Repr !! members[b].db.Repr);
      }
    }

    /** A change inside one server leaves the network intact. */
    twostate lemma StayValid(at: Bytes)
      requires old(Valid()) && at in members && at in config.peers && Runs(members[at], at)
      requires members[at].db in members[at].db.Repr && fresh(members[at].db.Repr - old(members[at].db.Repr))
      requires Repr == old(Repr) + members[at].db.Repr && held == old(held)[at := members[at].db.views[0]]
      requires forall n :: n in members && n != at ==> n in config.peers && Same(n)
      ensures Valid() && fresh(Repr - old(Repr))
    {
      hide Runs, Contained, Disjoint, Same;
      WasInside(at);
      StayContained(at);
      StayDisjoint(at);
      StayShown(at);
    }

    twostate lemma WasInside(at: Bytes)
      requires old(Valid()) && at in members
      ensures old(this in Repr && this !in members[at].db.Repr && members[at].db.Repr <= Repr && at in held)
    {
      hide Runs;
    }

    twostate lemma StayShown(at: Bytes)
      requires old(Valid()) && at in members && at in config.peers && Runs(members[at], at)
      requires held == old(held)[at := members[at].db.views[0]]
      requires forall n :: n in members && n != at ==> n in config.peers && Same(n)
      ensures forall n :: n in members ==>
        && n in config.peers && Runs(members[n], n) && n in held
        && |members[n].db.views| > 0 && members[n].db.views[0] == held[n]
    {
      hide Server.StandaloneDatabase.Valid;
    }

    method ExecLocally(at: Bytes, line: CmdLine) returns (r: Reply)
      requires Valid() && at in members && Routed(line)
      modifies Repr
      ensures Valid() && fresh(Repr - old(Repr)) && (held, r) == Local(old(held), at, line)
    {
      hide Valid, Runs, Same, Exec, Routed;
      MemberRuns(at);
      r := ExecInside(at, line);
      StayValid(at);
    }

    /** What a request did, if it was answered. */
    ghost predicate Answered(r: Option<Reply>, spec: Option<(Databases, Reply)>)
      reads this
    {
      match spec
      case None => r == None
      case Some(p) => r == Some(p.1) && held == p.0
    }

    /** ClusterDatabase.Exec, with at most so many forwards. */
    method ExecAt(at: Bytes, line: CmdLine, hops: nat) returns (r: Option<Reply>)
      requires Valid() && at in members && at in config.peers && config.peers.Keys == held.Keys
      modifies Repr
      ensures Valid() && fresh(Repr - old(Repr)) && Answered(r, Handle(config, old(held), at, line, hops))
      decreases hops, 1
    {
      hide Valid, Local, ToLower, RouteOf, NotSupported, ArityError, SplitRename, Owner, Relay;
      var router := MakeRouter();
      var cmdName := ToLower(line[0]);
      assert RouteOf(cmdName) == if cmdName in router then router[cmdName] else NoRoute;
      if cmdName !in router {
        return Some(NotSupported(cmdName));
      }
      match router[cmdName] {
        case Here =>
          var reply := ExecLocally(at, line);
          r := Some(reply);
        case ToOwner =>
          if |line| < 2 {
            return Some(UnknownError());
          }
          var peer := Pick(at, line[1]);
          r := RelayTo(at, peer, line, hops);
        case ToCommonOwner =>
          if |line| != 3 {
            return Some(ArityError("rename"));
          }
          var srcPeer := Pick(at, line[1]);
          var destPeer := Pick(at, line[2]);
          if srcPeer != destPeer {
            return Some(SplitRename());
          }
          r := RelayTo(at, srcPeer, line, hops);
        case _ =>
          r := None;
      }
    }

    /** relay: SELECT and the line, printed one behind the other on a connection to the peer, which
        executes what it reads; of the two replies that come back, the first is dropped. */
    method RelayTo(at: Bytes, peer: Bytes, line: CmdLine, hops: nat) returns (r: Option<Reply>)
      requires Valid() && at in members && at in config.peers && config.peers.Keys == held.Keys && Routed(line)
      modifies Repr
      ensures Valid() && fresh(Repr - old(Repr)) && Answered(r, Relay(config, old(held), at, peer, line, hops))
      decreases hops, 0
    {
      hide Valid, Local, Carry, CarryBack, Routed, Handle, Runs;
      MemberNamed(at);
      if peer == members[at].self {
        var reply := ExecLocally(at, line);
        return Some(reply);
      }
      if peer !in members {
        return Some(Err("connection factory not found"));
      }
      if hops == 0 {
        return None;
      }
      var received := Carry(line);
      if received == None {
        return None;
      }
      var refused := ExecAt(peer, SELECT_ZERO, hops - 1);
      if refused == None {
        return None;
      }
      MemberNamed(at);
      var reply := ExecAt(peer, received.value, hops - 1);
      if reply == None {
        return None;
      }
      r := CarryBack(refused.value, reply.value);
    }

    lemma MemberNamed(at: Bytes)
      requires Valid() && at in members
      ensures members[at].self == at && members.Keys == config.peers.Keys == held.Keys
    {
      MemberRuns(at);
    }

    /** The running cluster behaves like one map: each supported request, entered at any member, gets
        the reply of one server exactly if it is not forwarded or both survive the wire, and as long
        as a reply arrives, every key still lives exactly on its owner. */
    method Request(ghost ks: Keyspace, at: Bytes, line: CmdLine) returns (r: Option<Reply>)
      requires Valid() && config.Valid() && at in members && at in config.peers && Represents(config, held, ks)
      requires Supported(line) && (Forwarded(config, at, line) ==> RoundTrip.FittedCommand(AsMessage(line)))
      modifies Repr
      ensures Valid() && fresh(Repr - old(Repr))
      ensures var one := OneServer(config, at, ks, line);
        && (r.Some? ==> Represents(config, held, one.0))
        && (r == Some(one.1) <==>
              (Forwarded(config, at, line) ==> RoundTrip.PlainLine(line) && RoundTrip.WireSafe(one.1)))
    {
      hide Valid, Handle, OneServer, Represents, Supported, Forwarded, RoundTrip.PlainLine, RoundTrip.WireSafe;
      hide RoundTrip.FittedCommand;
      ClusterStep(config, held, ks, at, line, 1);
      r := ExecAt(at, line, 1);
    }

    lemma Names()
      requires Valid()
      ensures members.Keys == config.peers.Keys == held.Keys
    {
    }

    /** Requests entered at any members, one after the other; None if some reply never arrives. */
    method ExecAll(reqs: seq<Cluster.Request>) returns (r: Option<seq<Reply>>)
      requires Valid() && config.peers.Keys == held.Keys && forall i :: 0 <= i < |reqs| ==> reqs[i].at in config.peers
      modifies Repr
      ensures Valid() && fresh(Repr - old(Repr))
      ensures match RunCluster(config, old(held), reqs)
              case None => r == None
              case Some(p) => r == Some(p.1) && held == p.0
      decreases |reqs|
    {
      hide Valid, Handle;
      Names();
      if reqs == [] {
        return Some([]);
      }
      var first := ExecAt(reqs[0].at, reqs[0].line, 1);
      Names();
      if first == None {
        return None;
      }
      var rest := ExecAll(reqs[1..]);
      if rest == None {
        return None;
      }
      return Some([first.value] + rest.value);
    }

    /** The running cluster behaves like one map, over any sequence of requests: it gives the replies
        of one server exactly if the forwarded requests and the replies to them survive the wire, and
        as long as every reply arrives, every key lives exactly on its owner. */
    method Serve(ghost ks: Keyspace, reqs: seq<Cluster.Request>) returns (r: Option<seq<Reply>>)
      requires Valid() && config.Valid() && config.peers.Keys == held.Keys
      requires Represents(config, held, ks) && Entered(config, reqs)
      modifies Repr
      ensures Valid() && fresh(Repr - old(Repr))
      ensures var one := RunOneServer(config, ks, reqs);
        && (r.Some? ==> Represents(config, held, one.0))
        && (r == Some(one.1) <==> AllTravel(config, reqs, one.1))
    {
      hide *;
      EnteredAtMembers(config, reqs);
      ClusterIsOneServer(config, held, ks, reqs);
      r := ExecAll(reqs);
    }
  }

  lemma EnteredAtMembers(c: Config, reqs: seq<Cluster.Request>)
    requires Entered(c, reqs)
    ensures forall i :: 0 <= i < |reqs| ==> reqs[i].at in c.peers
  {
  }

  /** A cluster that has just started represents the empty map. */
  lemma StartsEmpty(c: Config)
    ensures Represents(c, map n | n in c.peers :: map[], map[])
  {
  }
}
