/** The commands of one database (package database) as functions on the keyspace. Panics inside a
    command are recovered one level up and answered with the unknown-error reply. */
module Commands {
  import opened Bytes
  import opened Reply
  import opened Sequences
  import LinkedLists
  import Wildcard

  type CmdLine = l: seq<Bytes> | l != [] witness [[]]

  /** A stored value. A string is None when the stored Go slice is nil. */
  datatype Entity = Str(data: Option<Bytes>) | List(elems: seq<Bytes>) | Set(members: set<Bytes>)

  type Keyspace = map<Bytes, Entity>

  /** A reply, or a multi-bulk listing of a set in Go's unspecified map order. */
  datatype Answer = Plain(reply: Reply) | Members(members: set<Bytes>)

  /** What executing a command does: the new keyspace, the answer, and whether the command
      is handed to the append-only log. */
  datatype Effect = Effect(ks: Keyspace, answer: Answer, logged: bool)

  function Unchanged(ks: Keyspace, r: Reply): Effect {
    Effect(ks, Plain(r), false)
  }

  function Done(ks: Keyspace, r: Reply): Effect {
    Effect(ks, Plain(r), true)
  }

  function WrongType(): Reply {
    Err("WRONGTYPE Operation against a " + "key holding the wrong kind of value")
  }

  function NotInteger(): Reply {
    Err("ERR value is not an integer" + " or out of range")
  }

  function SyntaxError(): Reply { Err("Err syntax error") }
  function NoSuchKey(): Reply { Err("no such key") }
  function UnknownError(): Reply { Err("Err unknown") }

  function ArityError(name: Bytes): Reply {
    Err("ERR wrong number of " + "arguments for '" + name + "' command")
  }

  // ---- strings

  /** getAsString: nothing for an absent key and for a nil string. */
  datatype Fetched = Missing | Found(bytes: Bytes) | NotAString

  function GetAsString(ks: Keyspace, key: Bytes): Fetched {
    if key !in ks then Missing
    else
      match ks[key]
      case Str(None) => Missing
      case Str(Some(b)) => Found(b)
      case _ => NotAString
  }

  function PutString(ks: Keyspace, key: Bytes, value: Bytes): Keyspace {
    ks[key := Str(Some(value))]
  }

  datatype Policy = Upsert | Insert | Update

  /** The options of SET, from the third argument on: NX and XX exclude each other. */
  function SetPolicy(options: seq<Bytes>, policy: Policy): Option<Policy> {
    if options == [] then Some(policy)
    else
      var option := ToUpper(options[0]);
      if option == "NX" then if policy == Update then None else SetPolicy(options[1..], Insert)
      else if option == "XX" then if policy == Insert then None else SetPolicy(options[1..], Update)
      else None
  }

  function ExecSet(ks: Keyspace, args: seq<Bytes>): Effect
    requires |args| >= 2
  {
    match SetPolicy(args[2..], Upsert)
    case None => Unchanged(ks, SyntaxError())
    case Some(policy) =>
      var blocked := (policy == Insert && args[0] in ks) || (policy == Update && args[0] !in ks);
      if blocked then Done(ks, NullBulk) else Done(PutString(ks, args[0], args[1]), OkReply())
  }

  function ExecSetNx(ks: Keyspace, args: seq<Bytes>): Effect
    requires |args| == 2
  {
    if args[0] in ks then Done(ks, Int(0)) else Done(PutString(ks, args[0], args[1]), Int(1))
  }

  /** Stores the pairs of an argument list, the last one for a key winning. */
  function PutPairs(ks: Keyspace, args: seq<Bytes>): Keyspace
    requires |args| % 2 == 0
    decreases |args|
  {
    if args == [] then ks else PutPairs(PutString(ks, args[0], args[1]), args[2..])
  }

  function ExecMSet(ks: Keyspace, args: seq<Bytes>): Effect {
    if |args| % 2 != 0 then Unchanged(ks, SyntaxError()) else Done(PutPairs(ks, args), OkReply())
  }

  function ExecMSetNx(ks: Keyspace, args: seq<Bytes>): Effect {
    if |args| % 2 != 0 then Unchanged(ks, SyntaxError())
    else if exists i :: 0 <= i < |args| && i % 2 == 0 && args[i] in ks then Unchanged(ks, Int(0))
    else Done(PutPairs(ks, args), Int(1))
  }

  function ExecGet(ks: Keyspace, args: seq<Bytes>): Effect
    requires |args| == 1
  {
    match GetAsString(ks, args[0])
    case NotAString => Unchanged(ks, WrongType())
    case Missing => Unchanged(ks, NullBulk)
    case Found(b) => Unchanged(ks, Bulk(b))
  }

  function ExecMGet(ks: Keyspace, args: seq<Bytes>): Effect {
    var value := (key: Bytes) =>
      var f := GetAsString(ks, key);
      if f.Found? then Some(f.bytes) else None;
    Unchanged(ks, MultiBulk(seq(|args|, i requires 0 <= i < |args| => value(args[i]))))
  }

  /** GETSET does not log when there was no string before. */
  function ExecGetSet(ks: Keyspace, args: seq<Bytes>): Effect
    requires |args| == 2
  {
    match GetAsString(ks, args[0])
    case NotAString => Unchanged(ks, WrongType())
    case Missing => Effect(PutString(ks, args[0], args[1]), Plain(NullBulk), false)
    case Found(b) => Done(PutString(ks, args[0], args[1]), Bulk(b))
  }

  /** Adding to the integer at a key, with int64 wrap-around; initial is stored when there is none. */
  function AddTo(ks: Keyspace, key: Bytes, delta: int, initial: Bytes, initialValue: int): Effect {
    match GetAsString(ks, key)
    case NotAString => Unchanged(ks, WrongType())
    case Missing => Done(PutString(ks, key, initial), Int(initialValue))
    case Found(b) =>
      match ParseInt(b)
      case None => Unchanged(ks, NotInteger())
      case Some(val) =>
        var sum := Wrap64(val + delta);
        Done(PutString(ks, key, FormatInt(sum)), Int(sum))
  }

  function ExecIncr(ks: Keyspace, args: seq<Bytes>): Effect
    requires |args| == 1
  {
    AddTo(ks, args[0], 1, "1", 1)
  }

  function ExecDecr(ks: Keyspace, args: seq<Bytes>): Effect
    requires |args| == 1
  {
    AddTo(ks, args[0], -1, "-1", -1)
  }

  /** INCRBY on a missing key stores its argument as it was written. */
  function ExecIncrBy(ks: Keyspace, args: seq<Bytes>): Effect
    requires |args| == 2
  {
    match ParseInt(args[1])
    case None => Unchanged(ks, NotInteger())
    case Some(delta) => AddTo(ks, args[0], delta, args[1], delta)
  }

  function ExecDecrBy(ks: Keyspace, args: seq<Bytes>): Effect
    requires |args| == 2
  {
    match ParseInt(args[1])
    case None => Unchanged(ks, NotInteger())
    case Some(delta) => AddTo(ks, args[0], -delta, FormatInt(Wrap64(-delta)), Wrap64(-delta))
  }

  function ExecStrLen(ks: Keyspace, args: seq<Bytes>): Effect
    requires |args| == 1
  {
    match GetAsString(ks, args[0])
    case NotAString => Unchanged(ks, WrongType())
    case Missing => Unchanged(ks, Int(0))
    case Found(b) => Unchanged(ks, Int(|b|))
  }

  /** What append leaves of a fetched string: still nil when nothing was appended to nil. */
  function Appended(f: Fetched, more: Bytes): Option<Bytes> {
    if f.Found? then Some(f.bytes + more) else if more == [] then None else Some(more)
  }

  function ExecAppend(ks: Keyspace, args: seq<Bytes>): Effect
    requires |args| == 2
  {
    var f := GetAsString(ks, args[0]);
    if f.NotAString? then Unchanged(ks, WrongType())
    else
      var bytes := Appended(f, args[1]);
      Done(ks[args[0] := Str(bytes)], Int(|Fill(bytes)|))
  }

  function Zeros(n: nat): Bytes {
    seq(n, _ => '\0')
  }

  /** The bytes after writing value at an offset, with zero bytes up to the offset. */
  function Overwritten(bytes: Bytes, offset: nat, value: Bytes): Bytes {
    var padded := if |bytes| < offset then bytes + Zeros(offset - |bytes|) else bytes;
    padded[..offset] + value + (if offset + |value| < |padded| then padded[offset + |value|..] else [])
  }

  /** Whether the bytes up to an offset are more than a slice can hold. */
  predicate Overlong(bytes: Bytes, offset: int) {
    |bytes| < offset && MAX_SLICE < offset
  }

  /** A negative offset with something to write panics, and so does padding that make or append
      refuses. The text of a bad offset's error is strconv's own. */
  function ExecSetRange(ks: Keyspace, args: seq<Bytes>): Effect
    requires |args| == 3
  {
    match ParseInt(args[1])
    case None => Unchanged(ks, Err("strconv.ParseInt"))
    case Some(offset) =>
      var f := GetAsString(ks, args[0]);
      var before := if f.Found? then f.bytes else [];
      if f.NotAString? then Unchanged(ks, WrongType())
      else if Overlong(before, offset) || (offset < 0 && args[2] != []) then Unchanged(ks, UnknownError())
      else
        var after := if offset < 0 then before else Overwritten(before, offset, args[2]);
        Done(ks[args[0] := Str(if f.Missing? && after == [] then None else Some(after))], Int(|after|))
  }

  function ExecGetRange(ks: Keyspace, args: seq<Bytes>): Effect
    requires |args| == 3
  {
    var first, last := ParseInt(args[1]), ParseInt(args[2]);
    if first == None || last == None then Unchanged(ks, Err("strconv.ParseInt"))
    else
      match GetAsString(ks, args[0])
      case NotAString => Unchanged(ks, WrongType())
      case Missing => Unchanged(ks, NullBulk)
      case Found(b) =>
        var n := |b|;
        var start := if first.value < 0 then n + first.value else first.value;
        var end := if last.value < 0 then n + last.value + 1 else if last.value < n then last.value + 1 else n;
        if first.value < -n || start >= n || last.value < -n || start > end then Unchanged(ks, NullBulk)
        else Unchanged(ks, Bulk(b[start..end]))
  }

  // ---- keys

  /** Removes: deletes the keys one by one and counts the ones that were there. */
  function Removes(ks: Keyspace, keys: seq<Bytes>): (r: (Keyspace, nat))
    ensures r.1 == 0 ==> r.0 == ks
  {
    if keys == [] then (ks, 0)
    else
      assert keys[0] !in ks ==> ks - {keys[0]} == ks;
      var r := Removes(ks - {keys[0]}, keys[1..]);
      (r.0, r.1 + if keys[0] in ks then 1 else 0)
  }

  lemma {:induction false} RemovesStep(ks: Keyspace, keys: seq<Bytes>)
    requires keys != []
    ensures var r := Removes(ks - {keys[0]}, keys[1..]);
            Removes(ks, keys) == (r.0, r.1 + if keys[0] in ks then 1 else 0)
  {
  }

  function ExecDel(ks: Keyspace, args: seq<Bytes>): Effect {
    var r := Removes(ks, args);
    Effect(r.0, Plain(Int(r.1)), r.1 > 0)
  }

  function CountPresent(ks: Keyspace, keys: seq<Bytes>): nat {
    if keys == [] then 0 else (if keys[0] in ks then 1 else 0) + CountPresent(ks, keys[1..])
  }

  function ExecExists(ks: Keyspace, args: seq<Bytes>): Effect {
    Unchanged(ks, Int(CountPresent(ks, args)))
  }

  /** KEYS lists the matching keys in Go's unspecified map order. */
  function ExecKeys(ks: Keyspace, args: seq<Bytes>): Effect
    requires |args| == 1
  {
    Effect(ks, Members(set k | k in ks && Wildcard.Matches(Wildcard.Pattern(args[0]), k)), false)
  }

  function ExecFlushDB(ks: Keyspace, args: seq<Bytes>): Effect {
    Done(map[], OkReply())
  }

  /** TYPE knows strings only. */
  function ExecType(ks: Keyspace, args: seq<Bytes>): Effect
    requires |args| == 1
  {
    if args[0] !in ks then Unchanged(ks, Status("none"))
    else if ks[args[0]].Str? then Unchanged(ks, Status("string"))
    else Unchanged(ks, UnknownError())
  }

  /** RENAME writes the destination and then removes the source, even if they are the same. */
  function ExecRename(ks: Keyspace, args: seq<Bytes>): Effect
    requires |args| == 2
  {
    if args[0] !in ks then Unchanged(ks, NoSuchKey())
    else Done(ks[args[1] := ks[args[0]]] - {args[0]}, OkReply())
  }

  function ExecRenameNx(ks: Keyspace, args: seq<Bytes>): Effect
    requires |args| == 2
  {
    if args[1] in ks then Unchanged(ks, Int(0))
    else if args[0] !in ks then Unchanged(ks, NoSuchKey())
    else Done((ks - {args[0], args[1]})[args[1] := ks[args[0]]], Int(1))
  }

  // ---- lists

  datatype FetchedList = NoList | AList(elems: seq<Bytes>) | NotAList

  function GetAsList(ks: Keyspace, key: Bytes): FetchedList {
    if key !in ks then NoList else if ks[key].List? then AList(ks[key].elems) else NotAList
  }

  /** Stores a list, or removes the key when nothing is left in it. */
  function PutOrDrop(ks: Keyspace, key: Bytes, elems: seq<Bytes>): Keyspace {
    if elems == [] then ks - {key} else ks[key := List(elems)]
  }

  function ExecPush(ks: Keyspace, args: seq<Bytes>, front: bool, mustExist: bool): Effect
    requires |args| >= 2
  {
    var l := GetAsList(ks, args[0]);
    if l.NotAList? then Unchanged(ks, WrongType())
    else if l.NoList? && mustExist then Unchanged(ks, Int(0))
    else
      var before := if l.AList? then l.elems else [];
      var after := if front then Reverse(args[1..]) + before else before + args[1..];
      Done(ks[args[0] := List(after)], Int(|after|))
  }

  /** A pop of an empty list panics at the front and answers nil at the back. */
  function ExecPop(ks: Keyspace, args: seq<Bytes>, front: bool): Effect
    requires |args| == 1
  {
    match GetAsList(ks, args[0])
    case NotAList => Unchanged(ks, WrongType())
    case NoList => Unchanged(ks, NullBulk)
    case AList(elems) =>
      if elems == [] then
        if front then Unchanged(ks, UnknownError()) else Done(ks - {args[0]}, Bulk([]))
      else if front then Done(PutOrDrop(ks, args[0], elems[1..]), Bulk(elems[0]))
      else Done(PutOrDrop(ks, args[0], elems[..|elems| - 1]), Bulk(elems[|elems| - 1]))
  }

  function ExecRPopLPush(ks: Keyspace, args: seq<Bytes>): Effect
    requires |args| == 2
  {
    var source, dest := args[0], args[1];
    match GetAsList(ks, source)
    case NotAList => Unchanged(ks, WrongType())
    case NoList => Unchanged(ks, NullBulk)
    case AList(elems) =>
      if GetAsList(ks, dest).NotAList? then Unchanged(ks, WrongType())
      else
        var val := if elems == [] then [] else elems[|elems| - 1];
        var rest := if elems == [] then [] else elems[..|elems| - 1];
        if source == dest then Done(ks[dest := List([val] + rest)], Bulk(val))
        else
          var target := if dest in ks then ks[dest].elems else [];
          Done(PutOrDrop(ks[dest := List([val] + target)], source, rest), Bulk(val))
  }

  /** LREM: all matches, the first count of them, or the last -count of them. */
  function Removed(elems: seq<Bytes>, value: Bytes, count: int): seq<Bytes> {
    if count == 0 then Without(elems, value)
    else if count > 0 then LinkedLists.LinkedList.FirstRemoved(elems, value, count)
    else LinkedLists.LinkedList.LastRemoved(elems, value, Wrap64(-count))
  }

  function ExecLRem(ks: Keyspace, args: seq<Bytes>): Effect
    requires |args| == 3
  {
    match ParseInt(args[1])
    case None => Unchanged(ks, NotInteger())
    case Some(count) =>
      match GetAsList(ks, args[0])
      case NotAList => Unchanged(ks, WrongType())
      case NoList => Unchanged(ks, Int(0))
      case AList(elems) =>
        var after := Removed(elems, args[2], count);
        var removed := |elems| - |after|;
        Effect(PutOrDrop(ks, args[0], after), Plain(Int(removed)), removed > 0)
  }

  /** The position that a list index names, from the back when it is negative. */
  function Position(index: int, size: int): Option<nat>
    requires size >= 0
  {
    if index < -size || index >= size then None
    else if index < 0 then Some(size + index)
    else Some(index)
  }

  function ExecLSet(ks: Keyspace, args: seq<Bytes>): Effect
    requires |args| == 3
  {
    match ParseInt(args[1])
    case None => Unchanged(ks, NotInteger())
    case Some(index) =>
      match GetAsList(ks, args[0])
      case NotAList => Unchanged(ks, WrongType())
      case NoList => Unchanged(ks, Err("ERR no such key"))
      case AList(elems) =>
        match Position(index, |elems|)
        case None => Unchanged(ks, Err("ERR index out of range"))
        case Some(i) => Done(ks[args[0] := List(elems[i := args[2]])], OkReply())
  }

  function ExecLIndex(ks: Keyspace, args: seq<Bytes>): Effect
    requires |args| == 2
  {
    match ParseInt(args[1])
    case None => Unchanged(ks, NotInteger())
    case Some(index) =>
      match GetAsList(ks, args[0])
      case NotAList => Unchanged(ks, WrongType())
      case NoList => Unchanged(ks, NullBulk)
      case AList(elems) =>
        match Position(index, |elems|)
        case None => Unchanged(ks, NullBulk)
        case Some(i) => Unchanged(ks, Bulk(elems[i]))
  }

  function ExecLLen(ks: Keyspace, args: seq<Bytes>): Effect
    requires |args| == 1
  {
    match GetAsList(ks, args[0])
    case NotAList => Unchanged(ks, WrongType())
    case NoList => Unchanged(ks, Int(0))
    case AList(elems) => Unchanged(ks, Int(|elems|))
  }

  /** The bounds that LRANGE passes to Range, or nothing for the empty reply. */
  function RangeBounds(start: int, stop: int, size: int): Option<(int, int)> {
    if start >= size then None
    else
      var from := if start < -size then 0 else if start < 0 then size + start else start;
      var to := if stop < -size then 0 else if stop < 0 then size + stop + 1
                else if stop < size then stop + 1 else size;
      Some((from, if to < from then from else to))
  }

  function ExecLRange(ks: Keyspace, args: seq<Bytes>): Effect
    requires |args| == 3
  {
    var start, stop := ParseInt(args[1]), ParseInt(args[2]);
    if start == None || stop == None then Unchanged(ks, NotInteger())
    else
      match GetAsList(ks, args[0])
      case NotAList => Unchanged(ks, WrongType())
      case NoList => Unchanged(ks, EmptyMultiBulk)
      case AList(elems) =>
        match RangeBounds(start.value, stop.value, |elems|)
        case None => Unchanged(ks, EmptyMultiBulk)
        case Some(b) =>
          if 0 <= b.0 < |elems| && b.0 <= b.1 <= |elems| then Unchanged(ks, MultiBulk(Present(elems[b.0..b.1])))
          else Unchanged(ks, UnknownError())
  }

  // ---- sets

  datatype FetchedSet = NoSet | ASet(members: set<Bytes>) | NotASet

  function GetAsSet(ks: Keyspace, key: Bytes): FetchedSet {
    if key !in ks then NoSet else if ks[key].Set? then ASet(ks[key].members) else NotASet
  }

  function SetOf(values: seq<Bytes>): set<Bytes> {
    set v | v in values
  }

  function ExecSAdd(ks: Keyspace, args: seq<Bytes>): Effect
    requires |args| >= 2
  {
    var s := GetAsSet(ks, args[0]);
    if s.NotASet? then Unchanged(ks, WrongType())
    else
      var before := if s.ASet? then s.members else {};
      var after := before + SetOf(args[1..]);
      Done(ks[args[0] := Set(after)], Int(|after| - |before|))
  }

  function ExecSRem(ks: Keyspace, args: seq<Bytes>): Effect
    requires |args| >= 2
  {
    match GetAsSet(ks, args[0])
    case NotASet => Unchanged(ks, WrongType())
    case NoSet => Unchanged(ks, Int(0))
    case ASet(before) =>
      var after := before - SetOf(args[1..]);
      Effect(if after == {} then ks - {args[0]} else ks[args[0] := Set(after)],
             Plain(Int(|before| - |after|)), |before| > |after|)
  }

  function ExecSIsMember(ks: Keyspace, args: seq<Bytes>): Effect
    requires |args| == 2
  {
    match GetAsSet(ks, args[0])
    case NotASet => Unchanged(ks, WrongType())
    case NoSet => Unchanged(ks, Int(0))
    case ASet(members) => Unchanged(ks, Int(if args[1] in members then 1 else 0))
  }

  function ExecSCard(ks: Keyspace, args: seq<Bytes>): Effect
    requires |args| == 1
  {
    match GetAsSet(ks, args[0])
    case NotASet => Unchanged(ks, WrongType())
    case NoSet => Unchanged(ks, Int(0))
    case ASet(members) => Unchanged(ks, Int(|members|))
  }

  function ExecSMembers(ks: Keyspace, args: seq<Bytes>): Effect
    requires |args| == 1
  {
    match GetAsSet(ks, args[0])
    case NotASet => Unchanged(ks, WrongType())
    case NoSet => Unchanged(ks, EmptyMultiBulk)
    case ASet(members) => Effect(ks, Members(members), false)
  }

  // ---- random choice

  /** What a command draws at random: distinct members of a set, or members with repetition (the
      empty string where there are none). */
  datatype Draws = NoDraw | Sample(members: set<Bytes>, n: nat) | Repeats(members: set<Bytes>, n: nat)

  /** The draws that can happen. */
  ghost predicate Fits(d: Draws, draw: seq<Bytes>) {
    match d
    case NoDraw => draw == []
    case Sample(members, n) =>
      && |draw| == n
      && (forall i :: 0 <= i < n ==> draw[i] in members)
      && forall i, j :: 0 <= i < j < n ==> draw[i] != draw[j]
    case Repeats(members, n) =>
      |draw| == n && forall i :: 0 <= i < n ==> if members == {} then draw[i] == [] else draw[i] in members
  }

  /** How many members SPOP is asked for. */
  function PopCount(args: seq<Bytes>): Option<nat>
    requires |args| >= 1
  {
    if |args| == 1 then Some(1)
    else
      var count := ParseInt(args[1]);
      if count == None || count.value <= 0 then None else Some(count.value)
  }

  function AtMost(n: nat, limit: nat): nat {
    if n > limit then limit else n
  }

  function OutOfRange(): Reply {
    Err("ERR value is out of range, " + "must be positive")
  }

  /** SPOP leaves an emptied set in place, and logs itself rather than what it has drawn. */
  function ExecSPop(ks: Keyspace, args: seq<Bytes>, draw: seq<Bytes>): Effect
    requires |args| >= 1
  {
    if |args| > 2 then Unchanged(ks, ArityError("spop"))
    else
      match GetAsSet(ks, args[0])
      case NotASet => Unchanged(ks, WrongType())
      case NoSet => Unchanged(ks, NullBulk)
      case ASet(members) =>
        match PopCount(args)
        case None => Unchanged(ks, OutOfRange())
        case Some(count) =>
          Effect(ks[args[0] := Set(members - SetOf(draw))], Plain(MultiBulk(Present(draw))),
                 AtMost(count, |members|) > 0)
  }

  /** A negative count for which make refuses a slice panics; the least integer, which cannot be
      negated, is one of them. */
  function ExecSRandMember(ks: Keyspace, args: seq<Bytes>, draw: seq<Bytes>): Effect
    requires |args| >= 1
  {
    if |args| > 2 then Unchanged(ks, ArityError("srandmember"))
    else
      match GetAsSet(ks, args[0])
      case NotASet => Unchanged(ks, WrongType())
      case NoSet => Unchanged(ks, NullBulk)
      case ASet(members) =>
        if |args| == 1 then Unchanged(ks, Bulk(if draw == [] then [] else draw[0]))
        else
          match ParseInt(args[1])
          case None => Unchanged(ks, NotInteger())
          case Some(count) =>
            if count == 0 then Unchanged(ks, EmptyMultiBulk)
            else if count < -MAX_SLICES then Unchanged(ks, UnknownError())
            else Unchanged(ks, MultiBulk(Present(draw)))
  }

  function CountDraws(members: set<Bytes>, count: int): Draws {
    if count == 0 || count < -MAX_SLICES then NoDraw
    else if count > 0 then Sample(members, AtMost(count, |members|))
    else Repeats(members, -count)
  }

  function SetDraws(c: SetCommand, ks: Keyspace, args: seq<Bytes>): Draws
    requires |args| >= 1
  {
    var s := GetAsSet(ks, args[0]);
    if !s.ASet? || |args| > 2 then NoDraw
    else if c == CSPop then
      match PopCount(args)
      case None => NoDraw
      case Some(count) => Sample(s.members, AtMost(count, |s.members|))
    else if c == CSRandMember then
      if |args| == 1 then Repeats(s.members, 1)
      else
        match ParseInt(args[1])
        case None => NoDraw
        case Some(count) => CountDraws(s.members, count)
    else NoDraw
  }

  /** How a loop over the keys of SINTER, SUNION or SDIFF ends. */
  datatype Scanned = Failed | Emptied | Nothing | Result(members: set<Bytes>)

  datatype Algebra = Inter | Union | Diff

  /** The loop over the keys: absent keys end an intersection (and a difference whose first
      key is absent) and are skipped otherwise; an intersection or difference that becomes
      empty at its second key or later ends early. */
  function ScanKeys(ks: Keyspace, keys: seq<Bytes>, op: Algebra, first: bool, acc: Option<set<Bytes>>): Scanned {
    if keys == [] then
      if acc == None then Nothing else Result(acc.value)
    else
      match GetAsSet(ks, keys[0])
      case NotASet => Failed
      case NoSet =>
        if op == Inter || (op == Diff && first) then Emptied else ScanKeys(ks, keys[1..], op, false, acc)
      case ASet(s) =>
        if acc == None then ScanKeys(ks, keys[1..], op, false, Some(s))
        else
          var next := match op
            case Inter => acc.value * s
            case Union => acc.value + s
            case Diff => acc.value - s;
          if op != Union && next == {} then Emptied else ScanKeys(ks, keys[1..], op, false, Some(next))
  }

  function ExecAlgebra(ks: Keyspace, args: seq<Bytes>, op: Algebra): Effect {
    match ScanKeys(ks, args, op, true, None)
    case Failed => Unchanged(ks, WrongType())
    case Result(members) => Effect(ks, Members(members), false)
    case _ => Unchanged(ks, EmptyMultiBulk)
  }

  /** The storing forms: the branches that only clear the destination are not logged. */
  function ExecStore(ks: Keyspace, args: seq<Bytes>, op: Algebra): Effect
    requires |args| >= 2
  {
    match ScanKeys(ks, args[1..], op, true, None)
    case Failed => Unchanged(ks, WrongType())
    case Emptied => Effect(ks - {args[0]}, Plain(Int(0)), false)
    case Nothing => Effect(ks - {args[0]}, Plain(EmptyMultiBulk), false)
    case Result(members) => Done(ks[args[0] := Set(members)], Int(|members|))
  }

  function ExecPing(ks: Keyspace, args: seq<Bytes>): Effect {
    if args == [] then Unchanged(ks, Status("PONG"))
    else if |args| == 1 then Unchanged(ks, Status(args[0]))
    else Unchanged(ks, ArityError("ping"))
  }

  // ---- the command table

  /** The commands of string.go. */
  datatype StringCommand =
    | CSet | CSetNx | CMSet | CMGet | CMSetNx | CGet | CGetSet | CIncr | CIncrBy | CDecr | CDecrBy | CStrLen
    | CAppend | CSetRange | CGetRange

  /** The commands of keys.go. */
  datatype KeyCommand =
    | CDel | CExists | CKeys | CFlushDB | CType | CRename | CRenameNx

  /** The commands of list.go. */
  datatype ListCommand =
    | CLPush | CLPushX | CRPush | CRPushX | CLPop | CRPop | CRPopLPush | CLRem | CLLen | CLIndex | CLSet
    | CLRange

  /** The commands of set.go. */
  datatype SetCommand =
    | CSAdd | CSIsMember | CSRem | CSCard | CSMembers | CSInter | CSInterStore | CSUnion | CSUnionStore
    | CSDiff | CSDiffStore | CSPop | CSRandMember

  datatype Command =
    | CPing
    | OnString(s: StringCommand)
    | OnKeys(k: KeyCommand)
    | OnList(l: ListCommand)
    | OnSet(m: SetCommand)

  function StringName(c: StringCommand): Bytes {
    match c
    case CSet => "set" case CSetNx => "setnx" case CMSet => "mset" case CMGet => "mget" case CMSetNx => "msetnx"
    case CGet => "get" case CGetSet => "getset" case CIncr => "incr" case CIncrBy => "incrby"
    case CDecr => "decr" case CDecrBy => "decrby" case CStrLen => "strlen" case CAppend => "append"
    case CSetRange => "setrange" case CGetRange => "getrange"
  }

  function KeyName(c: KeyCommand): Bytes {
    match c
    case CDel => "del" case CExists => "exists" case CKeys => "keys" case CFlushDB => "flushdb" case CType => "type"
    case CRename => "rename" case CRenameNx => "renamenx"
  }

  function ListName(c: ListCommand): Bytes {
    match c
    case CLPush => "lpush" case CLPushX => "lpushx" case CRPush => "rpush" case CRPushX => "rpushx"
    case CLPop => "lpop" case CRPop => "rpop" case CRPopLPush => "rpoplpush" case CLRem => "lrem"
    case CLLen => "llen" case CLIndex => "lindex" case CLSet => "lset" case CLRange => "lrange"
  }

  function SetName(c: SetCommand): Bytes {
    match c
    case CSAdd => "sadd" case CSIsMember => "sismember" case CSRem => "srem" case CSCard => "scard"
    case CSMembers => "smembers" case CSInter => "sinter" case CSInterStore => "sinterstore"
    case CSUnion => "sunion" case CSUnionStore => "sunionstore" case CSDiff => "sdiff"
    case CSDiffStore => "sdiffstore" case CSPop => "spop" case CSRandMember => "srandmember"
  }

  /** The name under which a command is registered; names are stored in lower case. */
  function Name(c: Command): Bytes {
    match c
    case CPing => "ping"
    case OnString(s) => StringName(s)
    case OnKeys(k) => KeyName(k)
    case OnList(l) => ListName(l)
    case OnSet(m) => SetName(m)
  }

  /** The name under which a command logs itself. */
  function LogName(c: Command): Bytes {
    if c == OnString(CSetRange) then "setRange" else Name(c)
  }

  function StringArity(c: StringCommand): int {
    match c
    case CMGet => -2
    case CSet | CMSet | CMSetNx => -3
    case CGet | CIncr | CDecr | CStrLen => 2
    case CSetNx | CGetSet | CIncrBy | CDecrBy | CAppend => 3
    case CSetRange | CGetRange => 4
  }

  function KeyArity(c: KeyCommand): int {
    match c
    case CFlushDB => -1
    case CDel | CExists => -2
    case CType | CKeys => 2
    case CRename | CRenameNx => 3
  }

  function ListArity(c: ListCommand): int {
    match c
    case CLPush | CLPushX | CRPush | CRPushX => -3
    case CLPop | CRPop | CLLen => 2
    case CRPopLPush | CLIndex => 3
    case CLRem | CLSet | CLRange => 4
  }

  function SetArity(c: SetCommand): int {
    match c
    case CSInter | CSUnion | CSDiff | CSPop | CSRandMember => -2
    case CSAdd | CSRem | CSInterStore | CSUnionStore | CSDiffStore => -3
    case CSCard | CSMembers => 2
    case CSIsMember => 3
  }

  /** The registered arity, command name included; a negative one is a minimum. */
  function Arity(c: Command): int {
    match c
    case CPing => -1
    case OnString(s) => StringArity(s)
    case OnKeys(k) => KeyArity(k)
    case OnList(l) => ListArity(l)
    case OnSet(m) => SetArity(m)
  }

  predicate ValidateArity(arity: int, argNum: int) {
    if arity >= 0 then argNum == arity else argNum >= -arity
  }

  /** The command table, by the length of the name. */
  function Lookup(name: Bytes): Option<Command> {
    if |name| == 3 then Lookup3(name)
    else if |name| == 4 then Lookup4(name)
    else if |name| == 5 then Lookup5(name)
    else if |name| == 6 then Lookup6(name)
    else if |name| == 7 then Lookup7(name)
    else if |name| == 8 then Lookup8(name)
    else if |name| == 9 then Lookup9(name)
    else if |name| == 10 then Lookup10(name)
    else if |name| == 11 then Lookup11(name)
    else None
  }

  function Lookup3(name: Bytes): Option<Command> {
    if name == "set" then Some(OnString(CSet))
    else if name == "get" then Some(OnString(CGet))
    else if name == "del" then Some(OnKeys(CDel))
    else None
  }

  function Lookup4(name: Bytes): Option<Command> {
    if name == "ping" then Some(CPing)
    else if name == "mset" then Some(OnString(CMSet))
    else if name == "mget" then Some(OnString(CMGet))
    else if name == "incr" then Some(OnString(CIncr))
    else if name == "decr" then Some(OnString(CDecr))
    else if name == "type" then Some(OnKeys(CType))
    else if name == "lpop" then Some(OnList(CLPop))
    else if name == "rpop" then Some(OnList(CRPop))
    else if name == "lrem" then Some(OnList(CLRem))
    else if name == "llen" then Some(OnList(CLLen))
    else if name == "lset" then Some(OnList(CLSet))
    else if name == "sadd" then Some(OnSet(CSAdd))
    else if name == "srem" then Some(OnSet(CSRem))
    else if name == "keys" then Some(OnKeys(CKeys))
    else if name == "spop" then Some(OnSet(CSPop))
    else None
  }

  function Lookup5(name: Bytes): Option<Command> {
    if name == "setnx" then Some(OnString(CSetNx))
    else if name == "lpush" then Some(OnList(CLPush))
    else if name == "rpush" then Some(OnList(CRPush))
    else if name == "scard" then Some(OnSet(CSCard))
    else if name == "sdiff" then Some(OnSet(CSDiff))
    else None
  }

  function Lookup6(name: Bytes): Option<Command> {
    if name == "msetnx" then Some(OnString(CMSetNx))
    else if name == "getset" then Some(OnString(CGetSet))
    else if name == "incrby" then Some(OnString(CIncrBy))
    else if name == "decrby" then Some(OnString(CDecrBy))
    else if name == "strlen" then Some(OnString(CStrLen))
    else if name == "append" then Some(OnString(CAppend))
    else if name == "exists" then Some(OnKeys(CExists))
    else if name == "rename" then Some(OnKeys(CRename))
    else if name == "lpushx" then Some(OnList(CLPushX))
    else if name == "rpushx" then Some(OnList(CRPushX))
    else if name == "lindex" then Some(OnList(CLIndex))
    else if name == "lrange" then Some(OnList(CLRange))
    else if name == "sinter" then Some(OnSet(CSInter))
    else if name == "sunion" then Some(OnSet(CSUnion))
    else None
  }

  function Lookup7(name: Bytes): Option<Command> {
    if name == "flushdb" then Some(OnKeys(CFlushDB))
    else None
  }

  function Lookup8(name: Bytes): Option<Command> {
    if name == "setrange" then Some(OnString(CSetRange))
    else if name == "getrange" then Some(OnString(CGetRange))
    else if name == "renamenx" then Some(OnKeys(CRenameNx))
    else if name == "smembers" then Some(OnSet(CSMembers))
    else None
  }

  function Lookup9(name: Bytes): Option<Command> {
    if name == "rpoplpush" then Some(OnList(CRPopLPush))
    else if name == "sismember" then Some(OnSet(CSIsMember))
    else None
  }

  function Lookup10(name: Bytes): Option<Command> {
    if name == "sdiffstore" then Some(OnSet(CSDiffStore))
    else None
  }

  function Lookup11(name: Bytes): Option<Command> {
    if name == "sinterstore" then Some(OnSet(CSInterStore))
    else if name == "sunionstore" then Some(OnSet(CSUnionStore))
    else if name == "srandmember" then Some(OnSet(CSRandMember))
    else None
  }

  function RunString(c: StringCommand, ks: Keyspace, args: seq<Bytes>): Effect
    requires ValidateArity(StringArity(c), 1 + |args|)
  {
    match c
    case CSet => ExecSet(ks, args)
    case CSetNx => ExecSetNx(ks, args)
    case CMSet => ExecMSet(ks, args)
    case CMGet => ExecMGet(ks, args)
    case CMSetNx => ExecMSetNx(ks, args)
    case CGet => ExecGet(ks, args)
    case CGetSet => ExecGetSet(ks, args)
    case CIncr => ExecIncr(ks, args)
    case CIncrBy => ExecIncrBy(ks, args)
    case CDecr => ExecDecr(ks, args)
    case CDecrBy => ExecDecrBy(ks, args)
    case CStrLen => ExecStrLen(ks, args)
    case CAppend => ExecAppend(ks, args)
    case CSetRange => ExecSetRange(ks, args)
    case CGetRange => ExecGetRange(ks, args)
  }

  function RunKey(c: KeyCommand, ks: Keyspace, args: seq<Bytes>): Effect
    requires ValidateArity(KeyArity(c), 1 + |args|)
  {
    match c
    case CDel => ExecDel(ks, args)
    case CExists => ExecExists(ks, args)
    case CKeys => ExecKeys(ks, args)
    case CFlushDB => ExecFlushDB(ks, args)
    case CType => ExecType(ks, args)
    case CRename => ExecRename(ks, args)
    case CRenameNx => ExecRenameNx(ks, args)
  }

  function RunList(c: ListCommand, ks: Keyspace, args: seq<Bytes>): Effect
    requires ValidateArity(ListArity(c), 1 + |args|)
  {
    match c
    case CLPush => ExecPush(ks, args, true, false)
    case CLPushX => ExecPush(ks, args, true, true)
    case CRPush => ExecPush(ks, args, false, false)
    case CRPushX => ExecPush(ks, args, false, true)
    case CLPop => ExecPop(ks, args, true)
    case CRPop => ExecPop(ks, args, false)
    case CRPopLPush => ExecRPopLPush(ks, args)
    case CLRem => ExecLRem(ks, args)
    case CLLen => ExecLLen(ks, args)
    case CLIndex => ExecLIndex(ks, args)
    case CLSet => ExecLSet(ks, args)
    case CLRange => ExecLRange(ks, args)
  }

  function RunSet(c: SetCommand, ks: Keyspace, args: seq<Bytes>, draw: seq<Bytes>): Effect
    requires ValidateArity(SetArity(c), 1 + |args|)
  {
    match c
    case CSAdd => ExecSAdd(ks, args)
    case CSIsMember => ExecSIsMember(ks, args)
    case CSRem => ExecSRem(ks, args)
    case CSCard => ExecSCard(ks, args)
    case CSMembers => ExecSMembers(ks, args)
    case CSInter => ExecAlgebra(ks, args, Inter)
    case CSInterStore => ExecStore(ks, args, Inter)
    case CSUnion => ExecAlgebra(ks, args, Union)
    case CSUnionStore => ExecStore(ks, args, Union)
    case CSDiff => ExecAlgebra(ks, args, Diff)
    case CSDiffStore => ExecStore(ks, args, Diff)
    case CSPop => ExecSPop(ks, args, draw)
    case CSRandMember => ExecSRandMember(ks, args, draw)
  }

  /** What a command does, given what it draws at random. */
  function Run(c: Command, ks: Keyspace, args: seq<Bytes>, draw: seq<Bytes>): Effect
    requires ValidateArity(Arity(c), 1 + |args|)
  {
    match c
    case CPing => ExecPing(ks, args)
    case OnString(s) => RunString(s, ks, args)
    case OnKeys(k) => RunKey(k, ks, args)
    case OnList(l) => RunList(l, ks, args)
    case OnSet(m) => RunSet(m, ks, args, draw)
  }

  function DrawsOf(c: Command, ks: Keyspace, args: seq<Bytes>): Draws
    requires ValidateArity(Arity(c), 1 + |args|)
  {
    if c.OnSet? then SetDraws(c.m, ks, args) else NoDraw
  }

  /** DB.Exec, given what it draws at random, with the line it logs, if any. */
  function ExecBy(ks: Keyspace, line: CmdLine, draw: seq<Bytes>): (Effect, seq<CmdLine>) {
    var name := ToLower(line[0]);
    match Lookup(name)
    case None => (Unchanged(ks, Err("ERR unknown command '" + name + "'")), [])
    case Some(c) =>
      if !ValidateArity(Arity(c), |line|) then
        (Unchanged(ks, ArityError(name)), [])
      else
        var e := Run(c, ks, line[1..], draw);
        (e, if e.logged then [[LogName(c)] + line[1..]] else [])
  }

  /** What executing a line draws at random. */
  function LineDraws(ks: Keyspace, line: CmdLine): Draws {
    match Lookup(ToLower(line[0]))
    case None => NoDraw
    case Some(c) => if ValidateArity(Arity(c), |line|) then DrawsOf(c, ks, line[1..]) else NoDraw
  }

  /** The draws that can happen when a line is executed. */
  ghost predicate Possible(ks: Keyspace, line: CmdLine, draw: seq<Bytes>) {
    Fits(LineDraws(ks, line), draw)
  }

  /** DB.Exec on a line that draws nothing at random. */
  function Exec(ks: Keyspace, line: CmdLine): (Effect, seq<CmdLine>) {
    ExecBy(ks, line, [])
  }
}
