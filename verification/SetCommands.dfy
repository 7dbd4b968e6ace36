/** The set commands on a database in memory (database/set.go). */
module SetCommands {
  import opened Bytes
  import opened Reply
  import C = Commands
  import opened HashSets
  import opened Database

  /** A set that a key is bound to. */
  ghost predicate Stored(db: DB, key: Bytes, s: HashSet)
    reads db, db.Repr, db.dict, db.dict.table
  {
    db.Owned() && key in db.data && db.data[key] == Elements(s) && s in db.Repr
  }

  lemma StoredSet(db: DB, key: Bytes)
    requires db.Owned() && key in db.data && db.data[key].Elements?
    ensures Stored(db, key, db.data[key].elems)
    ensures C.GetAsSet(db.View(), key) == C.ASet(db.data[key].elems.members)
  {
    assert db.Holds(db.data[key]);
  }

  /** What getAsSet returns. */
  datatype SetRef = NoSet | ASet(s: HashSet) | NotASet

  method GetAsSet(db: DB, key: Bytes) returns (r: SetRef)
    requires db.Owned()
    ensures match r
      case NoSet => key !in db.data && C.GetAsSet(db.View(), key) == C.NoSet
      case NotASet => C.GetAsSet(db.View(), key) == C.NotASet
      case ASet(s) => Stored(db, key, s) && C.GetAsSet(db.View(), key) == C.ASet(s.members)
  {
    var entity := db.GetEntity(key);
    if entity.None? {
      return NoSet;
    }
    match entity.value
    case Elements(s) =>
      StoredSet(db, key);
      r := ASet(s);
    case _ => r := NotASet;
  }

  /** The members at a key, none if there is no set. */
  function Before(ks: C.Keyspace, key: Bytes): set<Bytes> {
    var f := C.GetAsSet(ks, key);
    if f.ASet? then f.members else {}
  }

  lemma Rebinding(ks: C.Keyspace, key: Bytes)
    ensures match C.GetAsSet(ks, key)
      case NoSet => Before(ks, key) == {}
      case ASet(m) => Before(ks, key) == m && ks[key := C.Set(m)] == ks
      case NotASet => true
  {
  }

  /** A missing set is created empty and stored. */
  method GetOrInitSet(db: DB, key: Bytes) returns (r: SetRef)
    requires db.Owned()
    modifies db`data, db`Repr, db.dict, db.dict.table
    ensures db.dict.table == old(db.dict.table)
    ensures db.Owned() && fresh(db.Repr - old(db.Repr))
    ensures match r
      case NoSet => false
      case NotASet => C.GetAsSet(old(db.View()), key) == C.NotASet && db.View() == old(db.View())
      case ASet(s) => Stored(db, key, s) && C.GetAsSet(old(db.View()), key) != C.NotASet
                      && s.members == Before(old(db.View()), key)
                      && db.View() == old(db.View())[key := C.Set(s.members)]
  {
    hide DB.Owned, DB.View;
    r := GetAsSet(db, key);
    Rebinding(db.View(), key);
    if r.NoSet? {
      var s := new HashSet.Make([]);
      db.PutEntity(key, Elements(s));
      r := ASet(s);
      StoredSet(db, key);
    }
  }

  lemma SetOfNothing()
    ensures C.SetOf([]) == {}
  {
  }

  lemma SetOfMore(members: seq<Bytes>, i: nat)
    requires i < |members|
    ensures C.SetOf(members[..i + 1]) == C.SetOf(members[..i]) + {members[i]}
  {
    assert members[..i + 1] == members[..i] + [members[i]];
  }

  /** The loops of SADD and SREM over their members, counting what changes. */
  method AddAll(db: DB, key: Bytes, s: HashSet, members: seq<Bytes>) returns (counter: int)
    requires Stored(db, key, s)
    modifies s
    ensures Stored(db, key, s)
    ensures s.members == old(s.members) + C.SetOf(members) && counter == |s.members| - |old(s.members)|
    ensures db.View() == old(db.View())[key := C.Set(s.members)]
  {
    hide DB.View, DB.Owned, C.SetOf;
    db.Separate();
    counter := 0;
    SetOfNothing();
    for i := 0 to |members|
      invariant s.members == old(s.members) + C.SetOf(members[..i]) && counter == |s.members| - |old(s.members)|
    {
      var n := s.Add(members[i]);
      counter := counter + n;
      SetOfMore(members, i);
    }
    assert members[..|members|] == members;
    db.SetChanged(key);
  }

  method RemoveAll(db: DB, key: Bytes, s: HashSet, members: seq<Bytes>) returns (counter: int)
    requires Stored(db, key, s)
    modifies s
    ensures Stored(db, key, s)
    ensures s.members == old(s.members) - C.SetOf(members) && counter == |old(s.members)| - |s.members|
    ensures db.View() == old(db.View())[key := C.Set(s.members)]
  {
    hide DB.View, DB.Owned, C.SetOf;
    db.Separate();
    counter := 0;
    SetOfNothing();
    for i := 0 to |members|
      invariant s.members == old(s.members) - C.SetOf(members[..i]) && counter == |old(s.members)| - |s.members|
    {
      var n := s.Remove(members[i]);
      counter := counter + n;
      SetOfMore(members, i);
    }
    assert members[..|members|] == members;
    db.SetChanged(key);
  }

  lemma SAddEffect(ks: C.Keyspace, args: seq<Bytes>)
    requires |args| >= 2
    ensures C.GetAsSet(ks, args[0]) == C.NotASet ==> C.ExecSAdd(ks, args) == C.Unchanged(ks, C.WrongType())
    ensures C.GetAsSet(ks, args[0]) != C.NotASet ==>
      var before := Before(ks, args[0]);
      var after := before + C.SetOf(args[1..]);
      C.ExecSAdd(ks, args) ==
        C.Done(ks[args[0] := C.Set(before)][args[0] := C.Set(after)], Int(|after| - |before|))
  {
    hide C.SetOf;
    var before := Before(ks, args[0]);
    var after := before + C.SetOf(args[1..]);
    assert ks[args[0] := C.Set(before)][args[0] := C.Set(after)] == ks[args[0] := C.Set(after)];
  }

  method ExecSAdd(db: DB, args: seq<Bytes>) returns (r: Reply)
    requires db.Owned() && |args| >= 2
    modifies db, db.Repr, db.dict, db.dict.table
    ensures db.Did(C.ExecSAdd(old(db.View()), args), "sadd", args)
    ensures Answers(r, C.ExecSAdd(old(db.View()), args).answer)
  {
    hide DB.Owned, DB.View, C.ExecSAdd, C.GetAsSet, Before, C.SetOf, C.WrongType;
    SAddEffect(db.View(), args);
    var ref := GetOrInitSet(db, args[0]);
    if ref.NotASet? {
      return C.WrongType();
    }
    var counter := AddAll(db, args[0], ref.s, args[1..]);
    db.AddAof(["sadd"] + args);
    r := Int(counter);
  }

  method DropIfEmpty(db: DB, key: Bytes, s: HashSet, changed: bool, line: C.CmdLine)
    requires Stored(db, key, s)
    modifies db`data, db`aof, db.dict, db.dict.table
    ensures db.dict.table == old(db.dict.table)
    ensures db.Owned() && db.aof == old(db.aof) + if changed then [line] else []
    ensures db.View() == if s.members == {} then old(db.View()) - {key} else old(db.View())
  {
    hide DB.Owned, DB.View;
    if s.Len() == 0 {
      db.Remove(key);
    }
    if changed {
      db.AddAof(line);
    }
  }

  lemma SRemEffect(ks: C.Keyspace, args: seq<Bytes>)
    requires |args| >= 2
    ensures match C.GetAsSet(ks, args[0])
      case NotASet => C.ExecSRem(ks, args) == C.Unchanged(ks, C.WrongType())
      case NoSet => C.ExecSRem(ks, args) == C.Unchanged(ks, Int(0))
      case ASet(before) =>
        var after := before - C.SetOf(args[1..]);
        var written := ks[args[0] := C.Set(after)];
        C.ExecSRem(ks, args) == C.Effect(if after == {} then written - {args[0]} else written,
                                         C.Plain(Int(|before| - |after|)), |before| - |after| > 0)
  {
    hide C.SetOf;
    assert ks[args[0] := C.Set({})] - {args[0]} == ks - {args[0]};
  }

  method ExecSRem(db: DB, args: seq<Bytes>) returns (r: Reply)
    requires db.Owned() && |args| >= 2
    modifies db, db.Repr, db.dict, db.dict.table
    ensures db.Did(C.ExecSRem(old(db.View()), args), "srem", args)
    ensures Answers(r, C.ExecSRem(old(db.View()), args).answer)
  {
    hide DB.Owned, DB.View, C.ExecSRem, C.GetAsSet, C.SetOf, C.WrongType;
    var key := args[0];
    SRemEffect(db.View(), args);
    var ref := GetAsSet(db, key);
    if ref.NotASet? {
      return C.WrongType();
    }
    if ref.NoSet? {
      return Int(0);
    }
    var counter := RemoveAll(db, key, ref.s, args[1..]);
    DropIfEmpty(db, key, ref.s, counter > 0, ["srem"] + args);
    r := Int(counter);
  }

  method ExecSIsMember(db: DB, args: seq<Bytes>) returns (r: Reply)
    requires db.Owned() && |args| == 2
    ensures C.ExecSIsMember(db.View(), args) == C.Unchanged(db.View(), r)
  {
    hide DB.Owned, DB.View, C.GetAsSet, C.WrongType;
    var ref := GetAsSet(db, args[0]);
    if ref.NotASet? {
      return C.WrongType();
    }
    if ref.NoSet? {
      return Int(0);
    }
    if ref.s.Has(args[1]) {
      return Int(1);
    }
    r := Int(0);
  }

  method ExecSCard(db: DB, args: seq<Bytes>) returns (r: Reply)
    requires db.Owned() && |args| == 1
    ensures C.ExecSCard(db.View(), args) == C.Unchanged(db.View(), r)
  {
    hide DB.Owned, DB.View, C.GetAsSet, C.WrongType;
    var ref := GetAsSet(db, args[0]);
    if ref.NotASet? {
      return C.WrongType();
    }
    if ref.NoSet? {
      return Int(0);
    }
    r := Int(ref.s.Len());
  }

  /** A listing of a set in some order. */
  method Listing(s: HashSet) returns (r: Reply)
    ensures Answers(r, C.Members(s.members))
  {
    var slice := s.ToSlice();
    r := MultiBulk(Present(slice));
  }

  method ExecSMembers(db: DB, args: seq<Bytes>) returns (r: Reply)
    requires db.Owned() && |args| == 1
    ensures var e := C.ExecSMembers(db.View(), args); e.ks == db.View() && !e.logged && Answers(r, e.answer)
  {
    hide DB.Owned, DB.View, C.GetAsSet, C.WrongType;
    var ref := GetAsSet(db, args[0]);
    if ref.NotASet? {
      return C.WrongType();
    }
    if ref.NoSet? {
      return EmptyMultiBulk;
    }
    r := Listing(ref.s);
  }

  /** How a loop over the keys ends, with the set it has built. */
  datatype Looped = Failed | Emptied | Nothing | Result(s: HashSet)

  ghost predicate Scans(l: Looped, scanned: C.Scanned)
    reads if l.Result? then {l.s} else {}
  {
    match l
    case Failed => scanned == C.Failed
    case Emptied => scanned == C.Emptied
    case Nothing => scanned == C.Nothing
    case Result(s) => scanned == C.Result(s.members)
  }

  ghost function Acc(result: HashSet?): Option<set<Bytes>>
    reads result
  {
    if result == null then None else Some(result.members)
  }

  method Inter(db: DB, keys: seq<Bytes>) returns (l: Looped)
    requires db.Owned()
    ensures Scans(l, C.ScanKeys(db.View(), keys, C.Inter, true, None)) && (l.Result? ==> fresh(l.s))
  {
    hide DB.Owned, DB.View, C.GetAsSet;
    var result: HashSet? := null;
    for i := 0 to |keys|
      invariant result == null || fresh(result)
      invariant result == null ==> i == 0
      invariant C.ScanKeys(db.View(), keys, C.Inter, true, None) ==
                C.ScanKeys(db.View(), keys[i..], C.Inter, i == 0, Acc(result))
    {
      var ref := GetAsSet(db, keys[i]);
      if ref.NotASet? {
        return Failed;
      }
      if ref.NoSet? {
        return Emptied;
      }
      if result == null {
        var slice := ref.s.ToSlice();
        result := new HashSet.Make(slice);
        assert C.SetOf(slice) == ref.s.members;
      } else {
        result := result.Intersect(ref.s);
        if result.Len() == 0 {
          return Emptied;
        }
      }
    }
    l := if result == null then Nothing else Result(result);
  }

  method Union(db: DB, keys: seq<Bytes>) returns (l: Looped)
    requires db.Owned()
    ensures Scans(l, C.ScanKeys(db.View(), keys, C.Union, true, None)) && (l.Result? ==> fresh(l.s))
  {
    hide DB.Owned, DB.View, C.GetAsSet;
    var result: HashSet? := null;
    for i := 0 to |keys|
      invariant result == null || fresh(result)
      invariant C.ScanKeys(db.View(), keys, C.Union, true, None) ==
                C.ScanKeys(db.View(), keys[i..], C.Union, i == 0, Acc(result))
    {
      var ref := GetAsSet(db, keys[i]);
      if ref.NotASet? {
        return Failed;
      }
      if ref.NoSet? {
        continue;
      }
      if result == null {
        var slice := ref.s.ToSlice();
        result := new HashSet.Make(slice);
        assert C.SetOf(slice) == ref.s.members;
      } else {
        result := result.Union(ref.s);
      }
    }
    l := if result == null then Nothing else Result(result);
  }

  method Diff(db: DB, keys: seq<Bytes>) returns (l: Looped)
    requires db.Owned()
    ensures Scans(l, C.ScanKeys(db.View(), keys, C.Diff, true, None)) && (l.Result? ==> fresh(l.s))
  {
    hide DB.Owned, DB.View, C.GetAsSet;
    var result: HashSet? := null;
    for i := 0 to |keys|
      invariant result == null || fresh(result)
      invariant C.ScanKeys(db.View(), keys, C.Diff, true, None) ==
                C.ScanKeys(db.View(), keys[i..], C.Diff, i == 0, Acc(result))
    {
      var ref := GetAsSet(db, keys[i]);
      if ref.NotASet? {
        return Failed;
      }
      if ref.NoSet? {
        if i == 0 {
          return Emptied;
        }
        continue;
      }
      if result == null {
        var slice := ref.s.ToSlice();
        result := new HashSet.Make(slice);
        assert C.SetOf(slice) == ref.s.members;
      } else {
        result := result.Diff(ref.s);
        if result.Len() == 0 {
          return Emptied;
        }
      }
    }
    l := if result == null then Nothing else Result(result);
  }

  /** The loop of the command. */
  method Scan(db: DB, keys: seq<Bytes>, op: C.Algebra) returns (l: Looped)
    requires db.Owned()
    ensures Scans(l, C.ScanKeys(db.View(), keys, op, true, None)) && (l.Result? ==> fresh(l.s))
  {
    match op
    case Inter => l := Inter(db, keys);
    case Union => l := Union(db, keys);
    case Diff => l := Diff(db, keys);
  }

  /** SINTER, SUNION and SDIFF. */
  method ExecAlgebra(db: DB, args: seq<Bytes>, op: C.Algebra) returns (r: Reply)
    requires db.Owned()
    ensures var e := C.ExecAlgebra(db.View(), args, op); e.ks == db.View() && !e.logged && Answers(r, e.answer)
  {
    hide DB.Owned, DB.View, C.ScanKeys, C.WrongType;
    var l := Scan(db, args, op);
    match l
    case Failed => r := C.WrongType();
    case Result(s) => r := Listing(s);
    case _ => r := EmptyMultiBulk;
  }

  lemma StoreEffect(ks: C.Keyspace, args: seq<Bytes>, op: C.Algebra)
    requires |args| >= 2
    ensures var e := C.ExecStore(ks, args, op);
      match C.ScanKeys(ks, args[1..], op, true, None)
      case Failed => e == C.Unchanged(ks, C.WrongType())
      case Emptied => e == C.Effect(ks - {args[0]}, C.Plain(Int(0)), false)
      case Nothing => e == C.Effect(ks - {args[0]}, C.Plain(EmptyMultiBulk), false)
      case Result(m) =>
        e == C.Done(ks[args[0] := C.Set(m)], Int(|m|)) == C.Done((ks - {args[0]})[args[0] := C.Set(m)], Int(|m|))
  {
    hide C.ScanKeys;
    var f := C.ScanKeys(ks, args[1..], op, true, None);
    if f.Result? {
      assert ks[args[0] := C.Set(f.members)] == (ks - {args[0]})[args[0] := C.Set(f.members)];
    }
  }

  /** SINTERSTORE, SUNIONSTORE and SDIFFSTORE: the destination gets a set of its own. SUNIONSTORE
      removes the destination first, the others just bind it anew. */
  method ExecStore(db: DB, args: seq<Bytes>, op: C.Algebra, name: Bytes) returns (r: Reply)
    requires db.Owned() && |args| >= 2
    modifies db, db.Repr, db.dict, db.dict.table
    ensures db.Did(C.ExecStore(old(db.View()), args, op), name, args)
    ensures Answers(r, C.ExecStore(old(db.View()), args, op).answer)
  {
    hide DB.Owned, DB.View, C.ScanKeys, C.ExecStore, C.WrongType;
    var dest := args[0];
    StoreEffect(db.View(), args, op);
    var l := Scan(db, args[1..], op);
    if l.Failed? {
      return C.WrongType();
    }
    if l.Emptied? {
      db.Remove(dest);
      return Int(0);
    }
    if l.Nothing? {
      db.Remove(dest);
      return EmptyMultiBulk;
    }
    if op.Union? {
      db.Remove(dest);
    }
    var slice := l.s.ToSlice();
    var s := new HashSet.Make(slice);
    assert C.SetOf(slice) == l.s.members;
    db.PutEntity(dest, Elements(s));
    db.AddAof([name] + args);
    r := Int(s.Len());
  }

  lemma SPopEffect(ks: C.Keyspace, args: seq<Bytes>, draw: seq<Bytes>)
    requires |args| >= 1
    ensures |args| > 2 ==> C.ExecSPop(ks, args, draw) == C.Unchanged(ks, C.ArityError("spop"))
    ensures |args| <= 2 ==>
      match C.GetAsSet(ks, args[0])
      case NotASet => C.ExecSPop(ks, args, draw) == C.Unchanged(ks, C.WrongType())
      case NoSet => C.ExecSPop(ks, args, draw) == C.Unchanged(ks, NullBulk)
      case ASet(m) =>
        match C.PopCount(args)
        case None => C.ExecSPop(ks, args, draw) == C.Unchanged(ks, C.OutOfRange())
        case Some(count) =>
          C.ExecSPop(ks, args, draw) ==
            C.Effect(ks[args[0] := C.Set(m - C.SetOf(draw))], C.Plain(MultiBulk(Present(draw))),
                     C.AtMost(count, |m|) > 0)
    ensures C.SetDraws(C.CSPop, ks, args) ==
      if |args| <= 2 && C.GetAsSet(ks, args[0]).ASet? && C.PopCount(args).Some? then
        var m := C.GetAsSet(ks, args[0]).members;
        C.Sample(m, C.AtMost(C.PopCount(args).value, |m|))
      else C.NoDraw
  {
    hide C.PopCount, C.SetOf;
  }

  /** Removing members chosen at random, at most count of them. */
  method PopFrom(db: DB, key: Bytes, s: HashSet, asked: nat, line: C.CmdLine) returns (members: seq<Bytes>)
    requires Stored(db, key, s)
    modifies s, db`aof
    ensures db.Owned() && C.Fits(C.Sample(old(s.members), C.AtMost(asked, |old(s.members)|)), members)
    ensures db.View() == old(db.View())[key := C.Set(old(s.members) - C.SetOf(members))]
    ensures db.aof == old(db.aof) + if C.AtMost(asked, |old(s.members)|) > 0 then [line] else []
  {
    hide DB.Owned, DB.View, C.SetOf;
    var count := asked;
    if count > s.Len() {
      count := s.Len();
    }
    members := s.RandomDistinctMembers(count);
    var n := RemoveAll(db, key, s, members);
    if count > 0 {
      db.AddAof(line);
    }
  }

  method ExecSPop(db: DB, args: seq<Bytes>) returns (r: Reply, ghost draw: seq<Bytes>)
    requires db.Owned() && |args| >= 1
    modifies db, db.Repr, db.dict, db.dict.table
    ensures C.Fits(C.SetDraws(C.CSPop, old(db.View()), args), draw)
    ensures db.Did(C.ExecSPop(old(db.View()), args, draw), "spop", args)
    ensures Answers(r, C.ExecSPop(old(db.View()), args, draw).answer)
  {
    hide DB.Owned, DB.View, C.ExecSPop, C.GetAsSet, C.SetOf, C.PopCount, C.SetDraws;
    hide C.WrongType, C.ArityError, C.OutOfRange;
    ghost var ks := db.View();
    draw := [];
    SPopEffect(ks, args, []);
    if |args| != 1 && |args| != 2 {
      return C.ArityError("spop"), [];
    }
    var key := args[0];
    var ref := GetAsSet(db, key);
    if ref.NotASet? {
      return C.WrongType(), [];
    }
    if ref.NoSet? {
      return NullBulk, [];
    }
    var asked := C.PopCount(args);
    if asked == None {
      return C.OutOfRange(), [];
    }
    var members := PopFrom(db, key, ref.s, asked.value, ["spop"] + args);
    SPopEffect(ks, args, members);
    r, draw := MultiBulk(Present(members)), members;
  }

  method ExecSRandMember(db: DB, args: seq<Bytes>) returns (r: Reply, draw: seq<Bytes>)
    requires db.Owned() && |args| >= 1
    ensures C.Fits(C.SetDraws(C.CSRandMember, db.View(), args), draw)
    ensures C.ExecSRandMember(db.View(), args, draw) == C.Unchanged(db.View(), r)
  {
    hide DB.Owned, DB.View, C.GetAsSet, ParseInt, C.CountDraws, C.WrongType, C.NotInteger, C.ArityError;
    draw := [];
    if |args| != 1 && |args| != 2 {
      return C.ArityError("srandmember"), [];
    }
    var ref := GetAsSet(db, args[0]);
    if ref.NotASet? {
      return C.WrongType(), [];
    }
    if ref.NoSet? {
      return NullBulk, [];
    }
    if |args| == 1 {
      var members := ref.s.RandomMembers(1);
      return Bulk(members[0]), members;
    }
    var count := ParseInt(args[1]);
    if count == None {
      return C.NotInteger(), [];
    }
    draw := Choose(ref.s, count.value);
    ChooseEffect(db.View(), args, draw);
    if count.value == 0 {
      return EmptyMultiBulk, draw;
    }
    if count.value < -MAX_SLICES {
      return C.UnknownError(), draw;
    }
    return MultiBulk(Present(draw)), draw;
  }

  /** A positive count chooses distinct members, a negative one repeats them unless make
      refuses a slice of so many. */
  method Choose(s: HashSet, count: int) returns (members: seq<Bytes>)
    ensures C.Fits(C.CountDraws(s.members, count), members)
  {
    members := [];
    if count > 0 {
      members := s.RandomDistinctMembers(count);
    } else if -MAX_SLICES <= count < 0 {
      members := s.RandomMembers(-count);
    }
  }

  lemma ChooseEffect(ks: C.Keyspace, args: seq<Bytes>, draw: seq<Bytes>)
    requires |args| == 2 && ParseInt(args[1]).Some? && C.GetAsSet(ks, args[0]).ASet?
    ensures var count := ParseInt(args[1]).value;
            && C.SetDraws(C.CSRandMember, ks, args) == C.CountDraws(C.GetAsSet(ks, args[0]).members, count)
            && C.ExecSRandMember(ks, args, draw) == C.Unchanged(ks,
                 if count == 0 then EmptyMultiBulk
                 else if count < -MAX_SLICES then C.UnknownError()
                 else MultiBulk(Present(draw)))
  {
    hide ParseInt, C.CountDraws, C.GetAsSet, C.UnknownError;
  }
}
