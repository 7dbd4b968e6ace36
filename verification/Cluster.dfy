/** Key-based routing in a cluster (package cluster). Every member routes a request to the
    owner of its key, over a connection that carries printed and parsed RESP messages. The
    router does not know SELECT, so every connection stays at database 0. */
module Cluster {
  import opened Bytes
  import opened Reply
  import opened Parser
  import opened RoundTrip
  import opened Commands
  import opened LogCompleteness
  import opened ConsistentHash

  /** The members of a cluster and the peers each of them is configured with. */
  datatype Config = Config(hash: Hash, peers: map<Bytes, seq<Bytes>>) {
    function Nodes(): set<Bytes> {
      peers.Keys
    }

    ghost predicate Valid() {
      && Nodes() != {} && [] !in Nodes() && Distinct(hash, Nodes())
      && forall n :: n in peers ==> Named(peers[n] + [n]) == Nodes()
    }

    /** The ring that a member builds: its peers in order and then itself. */
    function RingAt(at: Bytes): Ring
      requires at in peers
    {
      AddAll(hash, map[], peers[at] + [at])
    }
  }

  lemma SomeOwner(ring: Ring, h: nat)
    ensures exists n :: Picks(ring, h, n)
  {
    var n := OwnerExists(ring, h);
  }

  /** PickNode at a member. */
  ghost function Owner(c: Config, at: Bytes, key: Bytes): (n: Bytes)
    requires at in c.peers
    ensures Picks(c.RingAt(at), c.hash(key), n)
  {
    SomeOwner(c.RingAt(at), c.hash(key));
    var n :| Picks(c.RingAt(at), c.hash(key), n);
    n
  }

  /** All members pick the same owner, and it is one of them. */
  lemma MembersAgree(c: Config, a: Bytes, b: Bytes, key: Bytes)
    requires c.Valid() && a in c.peers && b in c.peers
    ensures Owner(c, a, key) == Owner(c, b, key) && Owner(c, a, key) in c.peers
  {
    hide Picks;
    var nodes := c.Nodes();
    assert {} + nodes == nodes;
    AddAllIsRing(c.hash, map[], {}, c.peers[a] + [a]);
    AddAllIsRing(c.hash, map[], {}, c.peers[b] + [b]);
    RingIsUnique(c.hash, c.RingAt(a), c.RingAt(b), nodes);
    OwnerUnique(c.RingAt(a), c.hash(key), Owner(c, a, key), Owner(c, b, key));
    OwnerIsNode(c.hash, c.RingAt(a), nodes, c.hash(key), Owner(c, a, key), a);
  }

  lemma OwnerIsNode(hash: Hash, ring: Ring, nodes: set<Bytes>, h: nat, n: Bytes, member: Bytes)
    requires IsRingOf(hash, ring, nodes) && member in nodes && Picks(ring, h, n)
    ensures n in nodes
  {
    assert hash(member) in ring;
  }

  // ---- the wire

  /** What relay sends ahead of every line: the cluster's connections stay at database 0. */
  const SELECT_ZERO: CmdLine := ["SELECT", "0"]

  function NotSupported(name: Bytes): Reply {
    Err("ERR unknown command '" + name + "', or not " + "supported in cluster mode")
  }

  function AsMessage(line: CmdLine): Reply {
    MultiBulk(Present(line))
  }

  /** What the peer's parser makes of SELECT and a line printed on one connection: the second of the
      two messages, if there are exactly two and the first is the SELECT. */
  function Carry(line: CmdLine): Option<CmdLine> {
    var out := Parse(PrintAll([AsMessage(SELECT_ZERO), AsMessage(line)])).payloads;
    if |out| == 3 && out[0] == Data(AsMessage(SELECT_ZERO)) && IsMessage(out[1]) && out[2] == IoErr(true) then
      Some(Filled(out[1].reply.args))
    else None
  }

  predicate IsMessage(p: Payload) {
    p.Data? && p.reply.MultiBulk? && p.reply.args != []
  }

  /** What the client's parser makes of the replies to both: the second, if there are exactly two. */
  function CarryBack(refused: Reply, r: Reply): Option<Reply> {
    var out := Parse(PrintAll([refused, r])).payloads;
    if |out| == 3 && out[0].Data? && out[1].Data? && out[2] == IoErr(true) then Some(out[1].reply) else None
  }

  /** The parser never sends nil arguments. */
  lemma {:induction false} SentPresent(st: State, s: Bytes)
    requires st.Inv()
    ensures forall p <- RunFrom(st, s).payloads :: p.Data? && p.reply.MultiBulk? ==>
      p.reply.args == Present(Filled(p.reply.args))
    decreases |s|
  {
    hide Present, Filled;
    StepPresent(st, s);
    var r := Step(st, s);
    if r.Next? {
      SentPresent(r.state, r.rest);
    }
  }

  lemma StepPresent(st: State, s: Bytes)
    requires st.Inv()
    ensures forall p <- Step(st, s).out :: p.Data? && p.reply.MultiBulk? ==>
            p.reply.args == Present(Filled(p.reply.args))
  {
    hide ReadLine, Split, ParseInt, ParseUint;
    forall args: seq<Bytes> ensures Present(Filled(Present(args))) == Present(args) {
      PresentBack(args);
    }
  }

  /** What is read behind a reply that leaves nothing behind. */
  lemma ReadBehind(first: Reply, second: Reply)
    requires Clean(first)
    ensures Parse(PrintAll([first, second])).payloads == [Data(Returned(first))] + Parse(ToBytes(second)).payloads
  {
    hide Parse, ToBytes, Returned, Clean, WireSafe, Image;
    CleanIsSafe(first);
    SafeImage(first);
    RunPrinted(first, PrintAll([second]));
    assert [first, second][1..] == [second] && [second][1..] == [];
    assert PrintAll([second]) == ToBytes(second) + [] == ToBytes(second);
  }

  lemma SelectIsClean()
    ensures Clean(AsMessage(SELECT_ZERO)) && Returned(AsMessage(SELECT_ZERO)) == AsMessage(SELECT_ZERO)
  {
    hide Clean;
    SelectIsPlain();
    PlainIsClean(SELECT_ZERO);
    PresentBack(SELECT_ZERO);
  }

  lemma SelectIsPlain()
    ensures PlainLine(SELECT_ZERO)
  {
  }

  /** A command sent behind a SELECT arrives as it was sent exactly if it is plain. */
  lemma CarryIff(line: CmdLine)
    ensures Carry(line) == Some(line) <==> PlainLine(line)
  {
    hide PlainLine, Clean, Parse, ToBytes, PrintAll, Present, Filled, SELECT_ZERO;
    var out := Parse(ToBytes(AsMessage(line))).payloads;
    SelectIsClean();
    ReadBehind(AsMessage(SELECT_ZERO), AsMessage(line));
    var both := [Data(AsMessage(SELECT_ZERO))] + out;
    assert |both| == 3 ==> both[1] == out[0] && both[2] == out[1];
    CleanIff(AsMessage(line));
    PlainIsClean(line);
    PresentBack(line);
    LineReturns(line);
    if Carry(line) == Some(line) {
      assert out[0].reply.args == Present(line) by { ParsePresent(ToBytes(AsMessage(line))); }
      assert out == [Data(AsMessage(line)), IoErr(true)];
    }
  }

  lemma LineReturns(line: CmdLine)
    ensures Returned(AsMessage(line)) == AsMessage(line)
  {
    PresentBack(line);
    assert |Present(line)| == |line|;
  }

  lemma ParsePresent(s: Bytes)
    ensures forall p <- Parse(s).payloads :: p.Data? && p.reply.MultiBulk? ==>
            p.reply.args == Present(Filled(p.reply.args))
  {
    SentPresent(IDLE, s);
  }

  /** If no argument starts with `$`, it arrives as one message exactly if none is empty. */
  lemma FittedCarryIff(line: CmdLine)
    requires FittedCommand(AsMessage(line))
    ensures Carry(line).Some? <==> PlainLine(line)
  {
    hide PlainLine, Clean, Parse, ToBytes, PrintAll, Present, Filled, SELECT_ZERO, WireSafe, FittedCommand;
    CarryIff(line);
    if !PlainLine(line) {
      var r := AsMessage(line);
      SelectIsClean();
      ReadBehind(AsMessage(SELECT_ZERO), r);
      var out := Parse(ToBytes(r)).payloads;
      var both := [Data(AsMessage(SELECT_ZERO))] + out;
      assert |both| == 3 ==> both[2] == out[1];
      PlainIsClean(line);
      NotInStep(r);
    }
  }

  /** Such a message is read as two, or ends the parser. */
  lemma NotInStep(r: Reply)
    requires FittedCommand(r) && !Clean(r)
    ensures var out := Parse(ToBytes(r)).payloads; !(|out| == 2 && out[1] == IoErr(true))
  {
    hide Clean, Parse, ToBytes, WireSafe, FittedCommand, Returned;
    ClosesIff([r]);
    assert [r][1..] == [] && PrintAll([r]) == ToBytes(r) + [] == ToBytes(r);
    NoErrorBeforeTheEnd(ToBytes(r));
    if WireSafe(r) {
      SafeImage(r);
      RunPrinted(r, []);
      NothingPrinted();
    }
  }

  lemma RefusalIsClean()
    ensures Clean(NotSupported("select")) && Returned(NotSupported("select")) == NotSupported("select")
  {
    var text := NotSupported("select").text;
    assert |text| == 62;
    assert forall i :: 0 <= i < 31 ==> text[i] != LF;
    assert forall i :: 31 <= i < 62 ==> text[i] != LF;
  }

  /** A reply comes back behind the refusal of SELECT as it was sent exactly if it is wire-safe. */
  lemma CarryBackIff(r: Reply)
    requires !r.MultiBulk?
    ensures CarryBack(NotSupported("select"), r) == Some(r) <==> WireSafe(r)
  {
    hide Parse, ToBytes, WireSafe, PrintAll, NotSupported;
    var refused := NotSupported("select");
    RefusalIsClean();
    ReadBehind(refused, r);
    CleanIff(r);
    var out := Parse(ToBytes(r)).payloads;
    var both := [Data(refused)] + out;
    assert |both| == 3 ==> both[1] == out[0] && both[2] == out[1];
    if CarryBack(refused, r) == Some(r) {
      assert out == [Data(Returned(r)), IoErr(true)];
    }
  }

  /** A key that starts with `$` is taken for a length: the peer reads another key. */
  lemma DollarKeyIsLost()
    ensures Carry(["get", "$0"]) == Some(["get", ""])
  {
    hide Parse, ToBytes, Clean, SELECT_ZERO;
    var line: CmdLine := ["get", "$0"];
    SelectIsClean();
    ReadBehind(AsMessage(SELECT_ZERO), AsMessage(line));
    DollarZeroIsEmpty(["get"], []);
    assert ["get"] + ["$0"] == line && ["get"] + [[]] == ["get", ""];
    assert ToBytes(AsMessage(line)) + [] == ToBytes(AsMessage(line));
    assert Parse([]) == Outcome([IoErr(true)], Closed) by { NothingPrinted(); }
    var back: CmdLine := ["get", ""];
    var sent := Data(AsMessage(back));
    assert Parse(ToBytes(AsMessage(line))).payloads == [sent] + [IoErr(true)] == [sent, IoErr(true)];
    LineReturns(back);
    PresentBack(["get", ""]);
  }

  // ---- routing

  datatype Route = ToOwner | ToCommonOwner | Here | Broadcast | NoRoute

  /** The router table. */
  function RouteOf(name: Bytes): Route {
    if name == "ping" then Here
    else if name == "del" || name == "flushdb" then Broadcast
    else if name == "exists" || name == "type" || name == "set" || name == "setnx" || name == "get" || name == "getset"
    then ToOwner
    else if name == "rename" || name == "renamenx" then ToCommonOwner
    else NoRoute
  }

  type Databases = map<Bytes, Keyspace>

  function SplitRename(): Reply {
    Err("ERR rename must within " + "one slot in cluster mode")
  }

  /** Executing a line on a member's own database. */
  function Local(dbs: Databases, at: Bytes, line: CmdLine): (Databases, Reply)
    requires at in dbs
  {
    var e := Exec(dbs[at], line).0;
    (dbs[at := e.ks], if e.answer.Plain? then e.answer.reply else UnknownError())
  }

  /** ClusterDatabase.Exec at a member, with at most so many forwards; None when more are
      needed, when a message does not survive the wire, and for the broadcast commands, which
      every member broadcasts again. */
  ghost function Handle(c: Config, dbs: Databases, at: Bytes, line: CmdLine, hops: nat)
      : (r: Option<(Databases, Reply)>)
    requires at in c.peers && c.peers.Keys == dbs.Keys
    ensures r.Some? ==> r.value.0.Keys == dbs.Keys
    decreases hops, 1
  {
    var name := ToLower(line[0]);
    match RouteOf(name)
    case NoRoute => Some((dbs, NotSupported(name)))
    case Broadcast => None
    case Here => Some(Local(dbs, at, line))
    case ToOwner =>
      if |line| < 2 then Some((dbs, UnknownError())) else Relay(c, dbs, at, Owner(c, at, line[1]), line, hops)
    case ToCommonOwner =>
      if |line| != 3 then Some((dbs, ArityError("rename")))
      else if Owner(c, at, line[1]) != Owner(c, at, line[2]) then Some((dbs, SplitRename()))
      else Relay(c, dbs, at, Owner(c, at, line[1]), line, hops)
  }

  /** relay: executes locally, or sends SELECT and then the line on a pooled connection to the peer,
      and gives the second reply. */
  ghost function Relay(c: Config, dbs: Databases, at: Bytes, peer: Bytes, line: CmdLine, hops: nat)
      : (r: Option<(Databases, Reply)>)
    requires at in c.peers && c.peers.Keys == dbs.Keys
    ensures r.Some? ==> r.value.0.Keys == dbs.Keys
    decreases hops, 0
  {
    if peer == at then Some(Local(dbs, at, line))
    else if peer !in c.peers then Some((dbs, Err("connection factory not found")))
    else if hops == 0 then None
    else
      match Carry(line)
      case None => None
      case Some(received) =>
        match HandleBoth(c, dbs, peer, received, hops - 1)
        case None => None
        case Some(r) =>
          match CarryBack(r.1.0, r.1.1)
          case None => None
          case Some(reply) => Some((r.0, reply))
  }

  /** What the peer does with the two messages, and its two replies. */
  ghost function HandleBoth(c: Config, dbs: Databases, at: Bytes, line: CmdLine, hops: nat)
      : (r: Option<(Databases, (Reply, Reply))>)
    requires at in c.peers && c.peers.Keys == dbs.Keys
    ensures r.Some? ==> r.value.0.Keys == dbs.Keys
    decreases hops, 2
  {
    match Handle(c, dbs, at, SELECT_ZERO, hops)
    case None => None
    case Some(first) =>
      match Handle(c, first.0, at, line, hops)
      case None => None
      case Some(second) => Some((second.0, (first.1, second.1)))
  }

  // ---- commands touch their own keys only

  /** The routed commands that carry keys. */
  predicate Keyed(c: Command) {
    match c
    case OnString(s) => s == CSet || s == CSetNx || s == CGet || s == CGetSet
    case OnKeys(k) => k == CExists || k == CType || k == CRename || k == CRenameNx
    case _ => false
  }

  /** The keys of such a command; EXISTS is meant with one key. */
  function KeysOf(c: Command, args: seq<Bytes>): set<Bytes>
    requires args != []
  {
    if c == OnKeys(CRename) || c == OnKeys(CRenameNx) then if |args| > 1 then {args[0], args[1]} else {args[0]}
    else {args[0]}
  }

  predicate AgreeAt(a: Keyspace, b: Keyspace, k: Bytes) {
    (k in a <==> k in b) && (k in a ==> a[k] == b[k])
  }

  ghost predicate AgreeOn(a: Keyspace, b: Keyspace, keys: set<Bytes>) {
    forall k :: k in keys ==> AgreeAt(a, b, k)
  }

  ghost predicate AgreeOff(a: Keyspace, b: Keyspace, keys: set<Bytes>) {
    forall k :: k !in keys ==> AgreeAt(a, b, k)
  }

  /** Two executions of one command on keyspaces that agree on its keys. */
  ghost predicate SameEffect(ks: Keyspace, part: Keyspace, e: Effect, f: Effect, keys: set<Bytes>) {
    && e.answer == f.answer && AgreeOn(e.ks, f.ks, keys)
    && AgreeOff(ks, e.ks, keys) && AgreeOff(part, f.ks, keys)
  }

  lemma LocalStrings(ks: Keyspace, part: Keyspace, args: seq<Bytes>)
    requires args != [] && AgreeAt(ks, part, args[0])
    ensures |args| >= 2 ==> SameEffect(ks, part, ExecSet(ks, args), ExecSet(part, args), {args[0]})
    ensures |args| == 2 ==> SameEffect(ks, part, ExecSetNx(ks, args), ExecSetNx(part, args), {args[0]})
    ensures |args| == 1 ==> SameEffect(ks, part, ExecGet(ks, args), ExecGet(part, args), {args[0]})
    ensures |args| == 2 ==> SameEffect(ks, part, ExecGetSet(ks, args), ExecGetSet(part, args), {args[0]})
  {
    hide SetPolicy, WrongType, SyntaxError;
  }

  lemma LocalKeys(ks: Keyspace, part: Keyspace, args: seq<Bytes>)
    requires |args| == 1 && AgreeAt(ks, part, args[0])
    ensures SameEffect(ks, part, ExecExists(ks, args), ExecExists(part, args), {args[0]})
    ensures SameEffect(ks, part, ExecType(ks, args), ExecType(part, args), {args[0]})
  {
    hide UnknownError;
    assert args[1..] == [] && CountPresent(ks, args[1..]) == 0 == CountPresent(part, args[1..]);
  }

  lemma LocalRenames(ks: Keyspace, part: Keyspace, args: seq<Bytes>)
    requires |args| == 2 && AgreeAt(ks, part, args[0]) && AgreeAt(ks, part, args[1])
    ensures SameEffect(ks, part, ExecRename(ks, args), ExecRename(part, args), {args[0], args[1]})
    ensures SameEffect(ks, part, ExecRenameNx(ks, args), ExecRenameNx(part, args), {args[0], args[1]})
  {
    hide NoSuchKey;
  }

  lemma RunLocal(c: Command, ks: Keyspace, part: Keyspace, args: seq<Bytes>)
    requires Keyed(c) && Callable(c, args) && (c == OnKeys(CExists) ==> |args| == 1)
    requires AgreeOn(ks, part, KeysOf(c, args))
    ensures SameEffect(ks, part, Run(c, ks, args, []), Run(c, part, args, []), KeysOf(c, args))
  {
    hide AgreeAt, SameEffect, ExecSet, ExecSetNx, ExecGet, ExecGetSet, ExecExists, ExecType, ExecRename, ExecRenameNx;
    assert AgreeAt(ks, part, args[0]);
    match c
    case OnString(_) => LocalStrings(ks, part, args);
    case OnKeys(k) =>
      if k == CRename || k == CRenameNx {
        assert AgreeAt(ks, part, args[1]);
        LocalRenames(ks, part, args);
      } else {
        LocalKeys(ks, part, args);
      }
  }

  /** The reply is no list, and only a string can keep it from surviving the wire. */
  ghost predicate SafeButBulk(e: Effect) {
    e.answer.Plain? && !e.answer.reply.MultiBulk? && (e.answer.reply.Bulk? || WireSafe(e.answer.reply))
  }

  lemma StringReplies(ks: Keyspace, args: seq<Bytes>)
    requires args != []
    ensures |args| >= 2 ==> SafeButBulk(ExecSet(ks, args))
    ensures |args| == 2 ==> SafeButBulk(ExecSetNx(ks, args))
    ensures |args| == 1 ==> SafeButBulk(ExecGet(ks, args))
    ensures |args| == 2 ==> SafeButBulk(ExecGetSet(ks, args))
  {
    hide SetPolicy, WrongType, SyntaxError, PlainArg;
    ErrorsAreSafe();
  }

  lemma KeyReplies(ks: Keyspace, args: seq<Bytes>)
    requires args != []
    ensures |args| == 1 ==> SafeButBulk(ExecExists(ks, args)) && SafeButBulk(ExecType(ks, args))
    ensures |args| == 2 ==> SafeButBulk(ExecRename(ks, args)) && SafeButBulk(ExecRenameNx(ks, args))
  {
    hide NoSuchKey, UnknownError, PlainArg;
    ErrorsAreSafe();
    if |args| == 1 {
      assert args[1..] == [] && CountPresent(ks, args[1..]) == 0;
    }
  }

  lemma RunReplies(c: Command, ks: Keyspace, args: seq<Bytes>)
    requires Keyed(c) && Callable(c, args) && (c == OnKeys(CExists) ==> |args| == 1)
    ensures SafeButBulk(Run(c, ks, args, []))
  {
    hide SafeButBulk, ExecSet, ExecSetNx, ExecGet, ExecGetSet, ExecExists, ExecType, ExecRename, ExecRenameNx;
    match c
    case OnString(_) => StringReplies(ks, args);
    case OnKeys(_) => KeyReplies(ks, args);
  }

  lemma ErrorsAreSafe()
    ensures WireSafe(SyntaxError()) && WireSafe(NoSuchKey()) && WireSafe(UnknownError()) && WireSafe(OkReply())
    ensures WireSafe(WrongType()) && WireSafe(Status("none")) && WireSafe(Status("string"))
    ensures SyntaxError().Err? && NoSuchKey().Err? && UnknownError().Err? && WrongType().Err?
  {
    WrongTypeIsSafe();
    hide WrongType;
  }

  lemma WrongTypeIsSafe()
    ensures WireSafe(WrongType()) && WrongType().Err?
  {
    var text := WrongType().text;
    assert |text| == 65;
    assert forall i :: 0 <= i < 33 ==> text[i] != LF;
    assert forall i :: 33 <= i < 65 ==> text[i] != LF;
  }

  // ---- the cluster as one map

  /** The part of a keyspace that a member owns. */
  ghost function Owned(c: Config, ks: Keyspace, at: Bytes): Keyspace
    requires at in c.peers
  {
    map k | k in ks && Owner(c, at, k) == at :: ks[k]
  }

  /** Every member holds exactly the keys it owns. */
  ghost predicate Represents(c: Config, dbs: Databases, ks: Keyspace) {
    dbs.Keys == c.peers.Keys && forall n :: n in c.peers ==> dbs[n] == Owned(c, ks, n)
  }

  /** One server that refuses to rename a key across owners. */
  ghost function OneServer(c: Config, at: Bytes, ks: Keyspace, line: CmdLine): (Keyspace, Reply)
    requires at in c.peers
  {
    var rename := RouteOf(ToLower(line[0])) == ToCommonOwner;
    if rename && |line| != 3 then (ks, ArityError("rename"))
    else if rename && Owner(c, at, line[1]) != Owner(c, at, line[2]) then (ks, SplitRename())
    else
      var e := Exec(ks, line).0;
      (e.ks, if e.answer.Plain? then e.answer.reply else UnknownError())
  }

  /** The commands on keys that a cluster executes: on one key, and on two. */
  predicate OneKey(name: Bytes) {
    || name == "set" || name == "setnx" || name == "get" || name == "getset" || name == "type" || name == "exists"
  }

  predicate TwoKeys(name: Bytes) {
    name == "rename" || name == "renamenx"
  }

  /** One of these eight commands with a key, and with one key only if it is EXISTS. */
  predicate Supported(line: CmdLine) {
    var name := ToLower(line[0]);
    && |line| >= 2
    && (OneKey(name) || TwoKeys(name))
    && (name == "exists" ==> |line| == 2)
  }

  /** What the router does with every name: the commands on keys go to an owner, PING stays, DEL and
      FLUSHDB go everywhere, and nothing else is known, whatever the server could execute. */
  lemma RouteIff(name: Bytes)
    ensures RouteOf(name) == ToOwner <==> OneKey(name)
    ensures RouteOf(name) == ToCommonOwner <==> TwoKeys(name)
    ensures RouteOf(name) == Here <==> name == "ping"
    ensures RouteOf(name) == Broadcast <==> name == "del" || name == "flushdb"
    ensures RouteOf(name) == ToOwner || RouteOf(name) == ToCommonOwner <==>
            Lookup(name).Some? && Keyed(Lookup(name).value)
    ensures RouteOf(name) != NoRoute ==> Lookup(name).Some?
  {
    hide Lookup;
    if RouteOf(name) == ToOwner || RouteOf(name) == ToCommonOwner {
      RoutedNames(name);
    }
    if Lookup(name).Some? && Keyed(Lookup(name).value) {
      KeyedNames(name);
    }
    OthersFound();
  }

  lemma SupportedIsRouted(line: CmdLine)
    requires Supported(line)
    ensures var route := RouteOf(ToLower(line[0])); route == ToOwner || route == ToCommonOwner
  {
    hide ToLower;
  }

  /** The names of the keyed commands. */
  lemma KeyedNames(name: Bytes)
    requires Lookup(name).Some? && Keyed(Lookup(name).value)
    ensures OneKey(name) || TwoKeys(name)
  {
  }

  lemma OthersFound()
    ensures Lookup("ping").Some? && Lookup("del").Some? && Lookup("flushdb").Some?
    ensures !Keyed(Lookup("ping").value) && !Keyed(Lookup("del").value) && !Keyed(Lookup("flushdb").value)
  {
    hide Lookup;
    PingFinds();
    KeyNameFinds(CDel);
    KeyNameFinds(CFlushDB);
  }

  lemma RoutedNames(name: Bytes)
    requires RouteOf(name) == ToOwner || RouteOf(name) == ToCommonOwner
    ensures Lookup(name).Some? && Keyed(Lookup(name).value) && LF !in name
    ensures Lookup(name) == Some(OnKeys(CExists)) <==> name == "exists"
    ensures RouteOf(name) == ToCommonOwner <==>
            (Lookup(name) == Some(OnKeys(CRename)) || Lookup(name) == Some(OnKeys(CRenameNx)))
  {
    hide Lookup;
    StringNameFinds(CSet);
    StringNameFinds(CSetNx);
    StringNameFinds(CGet);
    StringNameFinds(CGetSet);
    KeyNameFinds(CExists);
    KeyNameFinds(CType);
    KeyNameFinds(CRename);
    KeyNameFinds(CRenameNx);
  }

  function LineKeys(line: CmdLine): set<Bytes>
    requires |line| >= 2
  {
    if RouteOf(ToLower(line[0])) == ToCommonOwner && |line| == 3 then {line[1], line[2]} else {line[1]}
  }

  lemma ExecLocal(ks: Keyspace, part: Keyspace, line: CmdLine)
    requires Supported(line) && AgreeOn(ks, part, LineKeys(line))
    ensures SameEffect(ks, part, Exec(ks, line).0, Exec(part, line).0, LineKeys(line))
  {
    hide ToLower, Lookup, Run, RouteOf, ArityError, AgreeAt, LogName;
    var name := ToLower(line[0]);
    SupportedIsRouted(line);
    RoutedNames(name);
    var c := Lookup(name).value;
    Reflexive(ks, LineKeys(line));
    Reflexive(part, LineKeys(line));
    if Callable(c, line[1..]) {
      RenameArity(c, line);
      RunLocal(c, ks, part, line[1..]);
    }
  }

  lemma RenameArity(c: Command, line: CmdLine)
    requires |line| >= 2 && Keyed(c) && Callable(c, line[1..])
    requires RouteOf(ToLower(line[0])) == ToCommonOwner <==> (c == OnKeys(CRename) || c == OnKeys(CRenameNx))
    ensures KeysOf(c, line[1..]) == LineKeys(line)
  {
    hide ToLower, RouteOf;
  }

  lemma Reflexive(ks: Keyspace, keys: set<Bytes>)
    ensures AgreeOff(ks, ks, keys)
  {
  }

  lemma ArityIsSafe(name: Bytes)
    requires LF !in name
    ensures WireSafe(ArityError(name)) && ArityError(name).Err?
  {
  }

  /** Whatever is executed, only a string that GET or GETSET reads can keep the reply from
      surviving the wire. */
  lemma OnlyStringsAreUnsafe(ks: Keyspace, line: CmdLine)
    requires Supported(line)
    ensures SafeButBulk(Exec(ks, line).0)
  {
    hide ToLower, Lookup, Run, RouteOf, PlainArg, LogName, ArityError, WireSafe;
    var name := ToLower(line[0]);
    SupportedIsRouted(line);
    RoutedNames(name);
    ArityIsSafe(name);
    var c := Lookup(name).value;
    if Callable(c, line[1..]) {
      RunReplies(c, ks, line[1..]);
    }
  }

  lemma OwnedAgrees(c: Config, ks: Keyspace, at: Bytes, keys: set<Bytes>)
    requires at in c.peers && forall k :: k in keys ==> Owner(c, at, k) == at
    ensures AgreeOn(ks, Owned(c, ks, at), keys)
  {
  }

  /** A member that executes a command on keys it owns keeps the representation. */
  lemma LocalStep(c: Config, dbs: Databases, ks: Keyspace, at: Bytes, line: CmdLine)
    requires c.Valid() && at in c.peers && Represents(c, dbs, ks) && Supported(line)
    requires forall k :: k in LineKeys(line) ==> Owner(c, at, k) == at
    ensures var e := Exec(ks, line).0;
      && SafeButBulk(e)
      && Represents(c, Local(dbs, at, line).0, e.ks)
      && Local(dbs, at, line).1 == e.answer.reply
  {
    hide Exec, WireSafe, ToLower, RouteOf;
    var keys := LineKeys(line);
    var part := Owned(c, ks, at);
    var e, f := Exec(ks, line).0, Exec(part, line).0;
    OwnedAgrees(c, ks, at, keys);
    ExecLocal(ks, part, line);
    OnlyStringsAreUnsafe(ks, line);
    forall n | n in c.peers ensures Local(dbs, at, line).0[n] == Owned(c, e.ks, n) {
      if n == at {
        OwnedAfter(c, ks, e.ks, f.ks, at, keys);
      } else {
        OwnedElsewhere(c, ks, e.ks, at, n, keys);
      }
    }
  }

  lemma OwnedAfter(c: Config, ks: Keyspace, after: Keyspace, partAfter: Keyspace, at: Bytes, keys: set<Bytes>)
    requires at in c.peers && forall k :: k in keys ==> Owner(c, at, k) == at
    requires AgreeOn(after, partAfter, keys) && AgreeOff(ks, after, keys)
    requires AgreeOff(Owned(c, ks, at), partAfter, keys)
    ensures partAfter == Owned(c, after, at)
  {
    var whole := Owned(c, after, at);
    forall k ensures AgreeAt(whole, partAfter, k) {
      if k in keys {
        assert AgreeAt(after, partAfter, k);
      } else {
        assert AgreeAt(ks, after, k) && AgreeAt(Owned(c, ks, at), partAfter, k);
      }
    }
    SameMaps(whole, partAfter);
  }

  lemma OwnedElsewhere(c: Config, ks: Keyspace, after: Keyspace, at: Bytes, n: Bytes, keys: set<Bytes>)
    requires c.Valid() && at in c.peers && n in c.peers && n != at
    requires forall k :: k in keys ==> Owner(c, at, k) == at
    requires AgreeOff(ks, after, keys)
    ensures Owned(c, after, n) == Owned(c, ks, n)
  {
    forall k ensures AgreeAt(Owned(c, after, n), Owned(c, ks, n), k) {
      MembersAgree(c, at, n, k);
      if k !in keys {
        assert AgreeAt(ks, after, k);
      }
    }
    SameMaps(Owned(c, after, n), Owned(c, ks, n));
  }

  lemma SameMaps(a: Keyspace, b: Keyspace)
    requires forall k :: AgreeAt(a, b, k)
    ensures a == b
  {
    assert forall k :: AgreeAt(a, b, k) ==> (k in a <==> k in b);
  }

  /** The owner of a command's keys. */
  ghost predicate CommonOwner(c: Config, at: Bytes, line: CmdLine)
    requires at in c.peers && |line| >= 2
  {
    RouteOf(ToLower(line[0])) == ToCommonOwner ==> |line| == 3 && Owner(c, at, line[1]) == Owner(c, at, line[2])
  }

  /** At the owner, the router ends up executing locally, whatever the number of forwards. */
  lemma HandleAtOwner(c: Config, dbs: Databases, at: Bytes, line: CmdLine, hops: nat)
    requires at in c.peers && c.peers.Keys == dbs.Keys && Supported(line)
    requires CommonOwner(c, at, line) && Owner(c, at, line[1]) == at
    ensures Handle(c, dbs, at, line, hops) == Some(Local(dbs, at, line))
  {
    hide Local, ToLower, RouteOf;
    SupportedIsRouted(line);
  }

  /** A request that the member it is entered at sends on to a peer. */
  ghost predicate Forwarded(c: Config, at: Bytes, line: CmdLine)
    requires at in c.peers && |line| >= 2
  {
    CommonOwner(c, at, line) && Owner(c, at, line[1]) != at
  }

  /** What the owner answers, as it reaches the member that the request was entered at. */
  function ThroughWire(forwarded: bool, line: CmdLine, r: (Databases, Reply)): Option<(Databases, Reply)> {
    if !forwarded then Some(r)
    else if !PlainLine(line) then None
    else
      match CarryBack(NotSupported("select"), r.1)
      case None => None
      case Some(reply) => Some((r.0, reply))
  }

  /** A request on keys of one owner: the owner executes it, and its reply travels back. */
  lemma CommonStep(c: Config, dbs: Databases, ks: Keyspace, at: Bytes, line: CmdLine, hops: nat)
    requires c.Valid() && at in c.peers && Represents(c, dbs, ks) && Supported(line)
    requires hops >= 1 && CommonOwner(c, at, line) && (Forwarded(c, at, line) ==> FittedCommand(AsMessage(line)))
    ensures var peer := Owner(c, at, line[1]);
      && peer in c.peers && dbs.Keys == c.peers.Keys
      && Handle(c, dbs, at, line, hops) == ThroughWire(Forwarded(c, at, line), line, Local(dbs, peer, line))
      && SafeButBulk(Exec(ks, line).0)
      && Represents(c, Local(dbs, peer, line).0, Exec(ks, line).0.ks)
      && Exec(ks, line).0.answer == Plain(Local(dbs, peer, line).1)
  {
    hide Exec, Handle, Local, ToLower, RouteOf, PlainLine, FittedCommand, WireSafe, Represents;
    SameMembers(c, dbs, ks);
    var peer := Owner(c, at, line[1]);
    MembersAgree(c, at, at, line[1]);
    MembersAgree(c, at, peer, line[1]);
    if |line| == 3 {
      MembersAgree(c, at, peer, line[2]);
    }
    HandleAtOwner(c, dbs, peer, line, hops - 1);
    LocalStep(c, dbs, ks, peer, line);
    if peer == at {
      HandleAtOwner(c, dbs, at, line, hops);
    } else {
      HandleForwards(c, dbs, at, peer, line, hops);
    }
  }

  /** One request entered at any member, with at most one forward: what it does is what one server
      would do, every key still lives exactly on its owner, and the reply is that of one server
      exactly if it has not been forwarded, or neither an argument is empty nor the reply unsafe. */
  lemma ClusterStep(c: Config, dbs: Databases, ks: Keyspace, at: Bytes, line: CmdLine, hops: nat)
    requires c.Valid() && at in c.peers && Represents(c, dbs, ks) && Supported(line)
    requires hops >= 1 && (Forwarded(c, at, line) ==> FittedCommand(AsMessage(line)))
    ensures dbs.Keys == c.peers.Keys
    ensures var r, one := Handle(c, dbs, at, line, hops), OneServer(c, at, ks, line);
      && (r.Some? ==> Represents(c, r.value.0, one.0))
      && (r.Some? && r.value.1 == one.1 <==> (Forwarded(c, at, line) ==> PlainLine(line) && WireSafe(one.1)))
  {
    hide Exec, Local, ToLower, RouteOf, PlainLine, FittedCommand, WireSafe, ArityError, Represents, Relay, CarryBack;
    hide NotSupported;
    SameMembers(c, dbs, ks);
    if CommonOwner(c, at, line) {
      hide Handle;
      CommonStep(c, dbs, ks, at, line, hops);
      CarryBackIff(Local(dbs, Owner(c, at, line[1]), line).1);
    }
  }

  /** What a member answers without executing or sending anything: an unknown name, a missing key, and a
      rename of other than two names, or of two names with different owners. */
  lemma RefusedHere(c: Config, dbs: Databases, at: Bytes, line: CmdLine, hops: nat)
    requires at in c.peers && c.peers.Keys == dbs.Keys
    ensures var name, r := ToLower(line[0]), Handle(c, dbs, at, line, hops);
      && (Lookup(name) == None ==> r == Some((dbs, NotSupported(name))))
      && (OneKey(name) && |line| == 1 ==> r == Some((dbs, UnknownError())))
      && (TwoKeys(name) && |line| != 3 ==> r == Some((dbs, ArityError("rename"))))
      && (TwoKeys(name) && |line| == 3 && Owner(c, at, line[1]) != Owner(c, at, line[2]) ==>
            r == Some((dbs, SplitRename())))
  {
    hide ToLower, Lookup, RouteOf, NotSupported, UnknownError, ArityError, SplitRename, Relay, Local;
    RouteIff(ToLower(line[0]));
  }

  datatype Request = Request(at: Bytes, line: CmdLine)

  /** Requests entered at arbitrary members, one after the other. */
  ghost function RunCluster(c: Config, dbs: Databases, reqs: seq<Request>): (r: Option<(Databases, seq<Reply>)>)
    requires c.peers.Keys == dbs.Keys && forall i :: 0 <= i < |reqs| ==> reqs[i].at in c.peers
    ensures r.Some? ==> |r.value.1| == |reqs|
    decreases |reqs|
  {
    if reqs == [] then Some((dbs, []))
    else
      match Handle(c, dbs, reqs[0].at, reqs[0].line, 1)
      case None => None
      case Some(first) =>
        if first.0.Keys != c.peers.Keys then None
        else
          match RunCluster(c, first.0, reqs[1..])
          case None => None
          case Some(rest) => Some((rest.0, [first.1] + rest.1))
  }

  ghost function RunOneServer(c: Config, ks: Keyspace, reqs: seq<Request>): (r: (Keyspace, seq<Reply>))
    requires forall i :: 0 <= i < |reqs| ==> reqs[i].at in c.peers
    ensures |r.1| == |reqs|
    decreases |reqs|
  {
    if reqs == [] then (ks, [])
    else
      var first := OneServer(c, reqs[0].at, ks, reqs[0].line);
      var rest := RunOneServer(c, first.0, reqs[1..]);
      (rest.0, [first.1] + rest.1)
  }

  /** Requests that the model covers: supported ones, and no argument starts with `$` if they are
      forwarded. */
  ghost predicate Entered(c: Config, reqs: seq<Request>) {
    forall i :: 0 <= i < |reqs| ==>
      && reqs[i].at in c.peers && Supported(reqs[i].line)
      && (Forwarded(c, reqs[i].at, reqs[i].line) ==> FittedCommand(AsMessage(reqs[i].line)))
  }

  /** Every forwarded request and its reply survive the wire. */
  ghost predicate AllTravel(c: Config, reqs: seq<Request>, replies: seq<Reply>)
    requires |replies| == |reqs| && Entered(c, reqs)
  {
    forall i :: 0 <= i < |reqs| ==> Forwarded(c, reqs[i].at, reqs[i].line) ==>
      PlainLine(reqs[i].line) && WireSafe(replies[i])
  }

  lemma EnteredFirst(c: Config, reqs: seq<Request>)
    requires reqs != [] && Entered(c, reqs)
    ensures reqs[0].at in c.peers && Supported(reqs[0].line) && |reqs[0].line| >= 2
    ensures Forwarded(c, reqs[0].at, reqs[0].line) ==> FittedCommand(AsMessage(reqs[0].line))
    ensures Entered(c, reqs[1..])
    ensures forall i :: 0 <= i < |reqs| ==> reqs[i].at in c.peers
  {
    hide Forwarded, FittedCommand;
    assert forall i :: 0 <= i < |reqs[1..]| ==> reqs[1..][i] == reqs[i + 1];
  }

  lemma TravelFirst(c: Config, reqs: seq<Request>, replies: seq<Reply>)
    requires reqs != [] && |replies| == |reqs| && Entered(c, reqs) && Entered(c, reqs[1..])
    requires reqs[0].at in c.peers && |reqs[0].line| >= 2
    ensures AllTravel(c, reqs, replies) <==>
            (Forwarded(c, reqs[0].at, reqs[0].line) ==> PlainLine(reqs[0].line) && WireSafe(replies[0])) &&
              AllTravel(c, reqs[1..], replies[1..])
  {
    hide Forwarded, WireSafe, PlainLine, FittedCommand;
    var tail := reqs[1..];
    assert forall i :: 0 < i < |reqs| ==> reqs[i] == tail[i - 1] && replies[i] == replies[1..][i - 1];
    assert forall i :: 0 <= i < |tail| ==> tail[i] == reqs[i + 1] && replies[1..][i] == replies[i + 1];
  }

  /** The cluster behaves like one map: for any sequence of requests, entered anywhere and each
      forwarded at most once, the replies are those of one server exactly if the forwarded ones and
      the replies to them survive the wire, and as long as every reply arrives, the members hold
      exactly the keys they own of that server's keyspace. */
  lemma {:induction false} ClusterIsOneServer(c: Config, dbs: Databases, ks: Keyspace, reqs: seq<Request>)
    requires c.Valid() && Represents(c, dbs, ks) && c.peers.Keys == dbs.Keys && Entered(c, reqs)
    ensures var r, one := RunCluster(c, dbs, reqs), RunOneServer(c, ks, reqs);
      && (r.Some? ==> Represents(c, r.value.0, one.0))
      && (r.Some? && r.value.1 == one.1 <==> AllTravel(c, reqs, one.1))
    decreases |reqs|
  {
    hide *;
    if reqs == [] {
      NoRequests(c, dbs, ks);
    } else {
      EnteredFirst(c, reqs);
      RunFirst(c, dbs, ks, reqs);
      var at, line := reqs[0].at, reqs[0].line;
      var first, one := Handle(c, dbs, at, line, 1), OneServer(c, at, ks, line);
      var replies := RunOneServer(c, ks, reqs).1;
      ClusterStep(c, dbs, ks, at, line, 1);
      TravelFirst(c, reqs, replies);
      assert replies[0] == one.1 && replies[1..] == RunOneServer(c, one.0, reqs[1..]).1;
      if first.Some? {
        SameMembers(c, first.value.0, one.0);
        ClusterIsOneServer(c, first.value.0, one.0, reqs[1..]);
        RepliesFirst(first.value.1, one.1, RunCluster(c, first.value.0, reqs[1..]), replies[1..]);
      }
    }
  }

  lemma NoRequests(c: Config, dbs: Databases, ks: Keyspace)
    requires c.peers.Keys == dbs.Keys && Entered(c, [])
    ensures RunCluster(c, dbs, []) == Some((dbs, [])) && RunOneServer(c, ks, []) == (ks, [])
    ensures AllTravel(c, [], [])
  {
  }

  /** The first request of both runs. */
  lemma RunFirst(c: Config, dbs: Databases, ks: Keyspace, reqs: seq<Request>)
    requires c.peers.Keys == dbs.Keys && reqs != [] && forall i :: 0 <= i < |reqs| ==> reqs[i].at in c.peers
    ensures var one := OneServer(c, reqs[0].at, ks, reqs[0].line);
            var rest := RunOneServer(c, one.0, reqs[1..]);
            RunOneServer(c, ks, reqs) == (rest.0, [one.1] + rest.1)
    ensures match Handle(c, dbs, reqs[0].at, reqs[0].line, 1)
            case None => RunCluster(c, dbs, reqs) == None
            case Some(first) =>
              first.0.Keys == c.peers.Keys ==>
              match RunCluster(c, first.0, reqs[1..])
              case None => RunCluster(c, dbs, reqs) == None
              case Some(rest) => RunCluster(c, dbs, reqs) == Some((rest.0, [first.1] + rest.1))
  {
    hide Handle, OneServer;
  }

  lemma RepliesFirst(a: Reply, b: Reply, more: Option<(Databases, seq<Reply>)>, rest: seq<Reply>)
    ensures more.Some? ==> ([a] + more.value.1 == [b] + rest <==> a == b && more.value.1 == rest)
  {
    if more.Some? {
      assert ([a] + more.value.1)[1..] == more.value.1 && ([b] + rest)[1..] == rest;
      assert ([a] + more.value.1)[0] == a && ([b] + rest)[0] == b;
    }
  }

  /** A forwarded SELECT is refused and changes nothing. */
  lemma SelectIsRefused(c: Config, dbs: Databases, at: Bytes, dbIndex: Bytes, hops: nat)
    requires at in c.peers && c.peers.Keys == dbs.Keys
    ensures Handle(c, dbs, at, ["SELECT", dbIndex], hops) == Some((dbs, NotSupported("select")))
  {
    hide ToLower, RouteOf, NotSupported;
    LowerSelect();
    assert RouteOf("select") == NoRoute by { SelectHasNoRoute(); }
  }

  lemma LowerSelect()
    ensures ToLower("SELECT") == "select"
  {
    assert "SELECT"[3..] == "ECT";
  }

  lemma SelectHasNoRoute()
    ensures RouteOf("select") == NoRoute
  {
    assert "select"[2] == 'l';
  }

  lemma SameMembers(c: Config, dbs: Databases, ks: Keyspace)
    ensures Represents(c, dbs, ks) ==> c.peers.Keys == dbs.Keys
  {
  }

  lemma HandleForwards(c: Config, dbs: Databases, at: Bytes, peer: Bytes, line: CmdLine, hops: nat)
    requires at in c.peers && peer in c.peers && c.peers.Keys == dbs.Keys && Supported(line)
    requires FittedCommand(AsMessage(line))
    requires CommonOwner(c, at, line) && Owner(c, at, line[1]) == peer != at && hops >= 1
    requires Handle(c, dbs, peer, line, hops - 1) == Some(Local(dbs, peer, line))
    ensures Handle(c, dbs, at, line, hops) == ThroughWire(true, line, Local(dbs, peer, line))
  {
    hide Local, ToLower, RouteOf, PlainLine, FittedCommand, WireSafe, Carry, CarryBack, NotSupported, SELECT_ZERO;
    SupportedIsRouted(line);
    CarryIff(line);
    FittedCarryIff(line);
    RefusesZero(c, dbs, peer, line, hops - 1);
  }

  /** The peer refuses SELECT, and then executes the line. */
  lemma RefusesZero(c: Config, dbs: Databases, at: Bytes, line: CmdLine, hops: nat)
    requires at in c.peers && c.peers.Keys == dbs.Keys
    requires Handle(c, dbs, at, line, hops) == Some(Local(dbs, at, line))
    ensures HandleBoth(c, dbs, at, line, hops)
            == Some((Local(dbs, at, line).0, (NotSupported("select"), Local(dbs, at, line).1)))
  {
    hide Handle, NotSupported, Local;
    SelectIsRefused(c, dbs, at, "0", hops);
  }
}
