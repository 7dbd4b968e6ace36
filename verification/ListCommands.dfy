/** The list commands on a database in memory (database/list.go). */
module ListCommands {
  import opened Bytes
  import opened Reply
  import opened Sequences
  import C = Commands
  import LogCompleteness
  import opened LinkedLists
  import opened Database

  /** A stored list's objects belong to the database. */
  ghost predicate Inside(db: DB, list: LinkedList<Bytes>)
    reads db, list
  {
    list in db.Repr && forall k :: 0 <= k < |list.nodes| ==> list.nodes[k] in db.Repr
  }

  /** A list that a key is bound to. */
  ghost predicate Stored(db: DB, key: Bytes, list: LinkedList<Bytes>)
    reads db, db.Repr, db.dict, db.dict.table, list
  {
    db.Owned() && key in db.data && db.data[key] == Items(list) && Inside(db, list) && list.Valid()
  }

  lemma StoredList(db: DB, key: Bytes)
    requires db.Owned() && key in db.data && db.data[key].Items?
    ensures Stored(db, key, db.data[key].list)
    ensures C.GetAsList(db.View(), key) == C.AList(db.data[key].list.Contents())
  {
    assert db.Holds(db.data[key]);
  }

  /** What getAsList returns: a nil list, a list, or the wrong-type error. */
  datatype ListRef = NoList | AList(list: LinkedList<Bytes>) | NotAList

  method GetAsList(db: DB, key: Bytes) returns (r: ListRef)
    requires db.Owned()
    ensures match r
      case NoList => key !in db.data && C.GetAsList(db.View(), key) == C.NoList
      case NotAList => C.GetAsList(db.View(), key) == C.NotAList
      case AList(l) => Stored(db, key, l) && C.GetAsList(db.View(), key) == C.AList(l.Contents())
  {
    var entity := db.GetEntity(key);
    if entity.None? {
      return NoList;
    }
    match entity.value
    case Items(l) =>
      StoredList(db, key);
      r := AList(l);
    case _ => r := NotAList;
  }

  /** The elements at a key, none if there is no list. */
  function Before(ks: C.Keyspace, key: Bytes): seq<Bytes> {
    var f := C.GetAsList(ks, key);
    if f.AList? then f.elems else []
  }

  /** A missing list is created empty and stored. */
  method GetOrInitList(db: DB, key: Bytes) returns (r: ListRef)
    requires db.Owned()
    modifies db`data, db`Repr, db.dict, db.dict.table
    ensures db.dict.table == old(db.dict.table)
    ensures db.Owned() && fresh(db.Repr - old(db.Repr))
    ensures forall k :: k in old(db.data) ==> k in db.data && db.data[k] == old(db.data)[k]
    ensures match r
      case NoList => false
      case NotAList => C.GetAsList(old(db.View()), key) == C.NotAList && db.View() == old(db.View())
      case AList(l) => Stored(db, key, l) && C.GetAsList(old(db.View()), key) != C.NotAList
                       && l.Contents() == Before(old(db.View()), key)
                       && db.View() == old(db.View())[key := C.List(l.Contents())]
  {
    hide DB.Owned, DB.View, LinkedList.Valid, LinkedList.Contents;
    r := GetAsList(db, key);
    ghost var ks := db.View();
    Rebinding(ks, key);
    if r.NoList? {
      var list := new LinkedList<Bytes>();
      db.PutEntity(key, Items(list));
      r := AList(list);
      StoredList(db, key);
    }
  }

  lemma Rebinding(ks: C.Keyspace, key: Bytes)
    ensures match C.GetAsList(ks, key)
      case NoList => Before(ks, key) == []
      case AList(c) => Before(ks, key) == c && ks[key := C.List(c)] == ks
      case NotAList => true
  {
  }

  /** The loop of LPUSH over its values. */
  method PushFront(list: LinkedList<Bytes>, values: seq<Bytes>)
    requires list.Valid()
    modifies list, list.nodes
    ensures list.Valid() && list.OnlyFresh(old(list.nodes))
    ensures list.Contents() == Reverse(values) + old(list.Contents())
  {
    hide LinkedList.Valid, LinkedList.Contents;
    ghost var before := list.Contents();
    for i := 0 to |values|
      invariant list.Valid() && list.OnlyFresh(old(list.nodes))
      invariant list.Contents() == Reverse(values[..i]) + before
    {
      ReverseMore(values, i);
      assert list.Len() >= 0;
      list.Insert(0, values[i]);
      assert [values[i]] + (Reverse(values[..i]) + before) == Reverse(values[..i + 1]) + before;
    }
    assert values[..|values|] == values;
  }

  lemma ReverseMore(s: seq<Bytes>, i: nat)
    requires i < |s|
    ensures Reverse(s[..i + 1]) == [s[i]] + Reverse(s[..i])
  {
    assert s[..i + 1] == s[..i] + [s[i]];
    ReverseAppend(s[..i], s[i]);
  }

  lemma {:induction false} ReverseAppend(s: seq<Bytes>, v: Bytes)
    ensures Reverse(s + [v]) == [v] + Reverse(s)
  {
    if s != [] {
      ReverseAppend(s[1..], v);
      assert (s + [v])[1..] == s[1..] + [v];
    }
  }

  /** The loop of RPUSH. */
  method PushBack(list: LinkedList<Bytes>, values: seq<Bytes>)
    requires list.Valid()
    modifies list, list.nodes
    ensures list.Valid() && list.OnlyFresh(old(list.nodes))
    ensures list.Contents() == old(list.Contents()) + values
  {
    hide LinkedList.Valid, LinkedList.Contents;
    ghost var before := list.Contents();
    for i := 0 to |values|
      invariant list.Valid() && list.OnlyFresh(old(list.nodes))
      invariant list.Contents() == before + values[..i]
    {
      list.Add(values[i]);
      assert before + values[..i] + [values[i]] == before + values[..i + 1];
    }
    assert values[..|values|] == values;
  }

  lemma PushEffect(ks: C.Keyspace, args: seq<Bytes>, front: bool)
    requires |args| >= 2
    ensures C.GetAsList(ks, args[0]) == C.NotAList ==>
      C.ExecPush(ks, args, front, false) == C.Unchanged(ks, C.WrongType())
    ensures C.GetAsList(ks, args[0]) != C.NotAList ==>
      var after := if front then Reverse(args[1..]) + Before(ks, args[0]) else Before(ks, args[0]) + args[1..];
      C.ExecPush(ks, args, front, false) == C.Done(ks[args[0] := C.List(after)], Int(|after|))
  {
  }

  lemma SetTwice(ks: C.Keyspace, key: Bytes, a: C.Entity, b: C.Entity)
    ensures ks[key := a][key := b] == ks[key := b]
  {
  }

  /** The values are added to the stored list one by one. */
  method PushAll(db: DB, key: Bytes, list: LinkedList<Bytes>, values: seq<Bytes>, front: bool)
    requires Stored(db, key, list)
    modifies db`Repr, list, list.nodes
    ensures Stored(db, key, list) && fresh(db.Repr - old(db.Repr))
    ensures list.Contents() == if front then Reverse(values) + old(list.Contents()) else old(list.Contents()) + values
    ensures db.View() == old(db.View())[key := C.List(list.Contents())]
  {
    hide DB.View, DB.Owned, LinkedList.Valid, LinkedList.Contents, ViewOf, Reverse, Footprint;
    db.Separate();
    if front {
      PushFront(list, values);
    } else {
      PushBack(list, values);
    }
    db.Repr := db.Repr + Footprint(Items(list));
    db.ListChanged(key);
    StoredList(db, key);
  }

  /** LPUSH and RPUSH. */
  method ExecPush(db: DB, args: seq<Bytes>, front: bool, name: Bytes) returns (r: Reply)
    requires db.Owned() && |args| >= 2
    modifies db, db.Repr, db.dict, db.dict.table
    ensures db.Did(C.ExecPush(old(db.View()), args, front, false), name, args)
    ensures Answers(r, C.ExecPush(old(db.View()), args, front, false).answer)
  {
    hide DB.Owned, DB.View, LinkedList.Valid, LinkedList.Contents, ViewOf, Reverse, Footprint, C.ExecPush;
    hide C.GetAsList, Before;
    hide C.WrongType;
    var key, values := args[0], args[1..];
    ghost var ks := db.View();
    var ref := GetOrInitList(db, key);
    PushEffect(ks, args, front);
    if ref.NotAList? {
      return C.WrongType();
    }
    ghost var created := db.View();
    PushAll(db, key, ref.list, values, front);
    SetTwice(ks, key, C.List(Before(ks, key)), C.List(ref.list.Contents()));
    db.AddAof([name] + args);
    r := Int(ref.list.Len());
  }

  lemma PushXEffect(ks: C.Keyspace, args: seq<Bytes>, front: bool)
    requires |args| >= 2
    ensures C.GetAsList(ks, args[0]) == C.NoList ==> C.ExecPush(ks, args, front, true) == C.Unchanged(ks, Int(0))
    ensures C.GetAsList(ks, args[0]) != C.NoList ==>
            C.ExecPush(ks, args, front, true) == C.ExecPush(ks, args, front, false)
  {
  }

  /** LPUSHX and RPUSHX. */
  method ExecPushX(db: DB, args: seq<Bytes>, front: bool, name: Bytes) returns (r: Reply)
    requires db.Owned() && |args| >= 2
    modifies db, db.Repr, db.dict, db.dict.table
    ensures db.Did(C.ExecPush(old(db.View()), args, front, true), name, args)
    ensures Answers(r, C.ExecPush(old(db.View()), args, front, true).answer)
  {
    hide DB.Owned, DB.View, LinkedList.Valid, LinkedList.Contents, Reverse, C.ExecPush, C.GetAsList, C.WrongType;
    var key, values := args[0], args[1..];
    ghost var ks := db.View();
    var ref := GetAsList(db, key);
    PushEffect(ks, args, front);
    PushXEffect(ks, args, front);
    if ref.NotAList? {
      return C.WrongType();
    }
    if ref.NoList? {
      return Int(0);
    }
    PushAll(db, key, ref.list, values, front);
    db.AddAof([name] + args);
    r := Int(ref.list.Len());
  }

  /** Taking an end off a stored list. */
  method PopFrom(db: DB, key: Bytes, list: LinkedList<Bytes>, front: bool) returns (val: Bytes)
    requires Stored(db, key, list) && list.Contents() != []
    modifies db`Repr, list, list.nodes
    ensures Stored(db, key, list) && fresh(db.Repr - old(db.Repr))
    ensures var c := old(list.Contents());
            && val == (if front then c[0] else c[|c| - 1])
            && list.Contents() == if front then c[1..] else c[..|c| - 1]
    ensures db.View() == old(db.View())[key := C.List(list.Contents())]
  {
    hide DB.View, DB.Owned, LinkedList.Valid, LinkedList.Contents, Footprint;
    db.Separate();
    assert list.Len() > 0;
    if front {
      val := list.Remove(0);
    } else {
      var last := list.RemoveLast();
      val := last.value;
    }
    db.Repr := db.Repr + Footprint(Items(list));
    db.ListChanged(key);
    StoredList(db, key);
  }

  lemma PopEffect(ks: C.Keyspace, args: seq<Bytes>, front: bool)
    requires |args| == 1
    ensures match C.GetAsList(ks, args[0])
      case NotAList => C.ExecPop(ks, args, front) == C.Unchanged(ks, C.WrongType())
      case NoList => C.ExecPop(ks, args, front) == C.Unchanged(ks, NullBulk)
      case AList(c) =>
        c != [] ==>
          var rest := if front then c[1..] else c[..|c| - 1];
          var after := ks[args[0] := C.List(rest)];
          C.ExecPop(ks, args, front) ==
            C.Done(if rest == [] then after - {args[0]} else after, Bulk(if front then c[0] else c[|c| - 1]))
  {
    assert ks[args[0] := C.List([])] - {args[0]} == ks - {args[0]};
  }

  lemma NotEmpty(db: DB, key: Bytes, list: LinkedList<Bytes>)
    requires db.Valid() && Stored(db, key, list)
    ensures list.Contents() != []
  {
    StoredList(db, key);
  }

  /** A key whose list has become empty is removed. */
  method DropIfEmpty(db: DB, key: Bytes, list: LinkedList<Bytes>, changed: bool, line: C.CmdLine)
    requires Stored(db, key, list)
    modifies db`data, db`aof, db.dict, db.dict.table
    ensures db.dict.table == old(db.dict.table)
    ensures db.Owned() && db.aof == old(db.aof) + if changed then [line] else []
    ensures db.View() == if old(list.Contents()) == [] then old(db.View()) - {key} else old(db.View())
  {
    hide DB.Owned, DB.View, LinkedList.Valid, LinkedList.Contents;
    if list.Len() == 0 {
      db.Remove(key);
    }
    if changed {
      db.AddAof(line);
    }
  }

  /** LPOP and RPOP. */
  method ExecPop(db: DB, args: seq<Bytes>, front: bool, name: Bytes) returns (r: Reply)
    requires db.Valid() && |args| == 1
    modifies db, db.Repr, db.dict, db.dict.table
    ensures db.Did(C.ExecPop(old(db.View()), args, front), name, args)
    ensures Answers(r, C.ExecPop(old(db.View()), args, front).answer)
  {
    hide DB.Owned, DB.View, LinkedList.Valid, LinkedList.Contents, C.ExecPop, C.GetAsList, C.WrongType;
    var key := args[0];
    PopEffect(db.View(), args, front);
    var ref := GetAsList(db, key);
    if ref.NotAList? {
      return C.WrongType();
    }
    if ref.NoList? {
      return NullBulk;
    }
    NotEmpty(db, key, ref.list);
    var val := PopFrom(db, key, ref.list, front);
    DropIfEmpty(db, key, ref.list, true, [name] + args);
    r := Bulk(val);
  }

  method InsertFirst(db: DB, key: Bytes, list: LinkedList<Bytes>, val: Bytes)
    requires Stored(db, key, list)
    modifies db`Repr, list, list.nodes
    ensures Stored(db, key, list) && fresh(db.Repr - old(db.Repr))
    ensures list.Contents() == [val] + old(list.Contents())
    ensures db.View() == old(db.View())[key := C.List(list.Contents())]
  {
    hide DB.View, DB.Owned, LinkedList.Valid, LinkedList.Contents, Footprint;
    db.Separate();
    assert list.Len() >= 0;
    ghost var c := list.Contents();
    list.Insert(0, val);
    assert c[..0] + [val] + c[0..] == [val] + c;
    db.Repr := db.Repr + Footprint(Items(list));
    db.ListChanged(key);
    StoredList(db, key);
  }

  /** The keyspace after the element has moved, step by step as the command takes it. */
  function Moved(ks: C.Keyspace, source: Bytes, dest: Bytes): C.Keyspace
    requires Before(ks, source) != []
  {
    var c := Before(ks, source);
    var popped := ks[source := C.List(c[..|c| - 1])];
    var pushed := popped[dest := C.List([c[|c| - 1]] + Before(popped, dest))];
    if Before(pushed, source) == [] then pushed - {source} else pushed
  }

  lemma RPopLPushEffect(ks: C.Keyspace, args: seq<Bytes>)
    requires |args| == 2
    ensures match C.GetAsList(ks, args[0])
      case NotAList => C.ExecRPopLPush(ks, args) == C.Unchanged(ks, C.WrongType())
      case NoList => C.ExecRPopLPush(ks, args) == C.Unchanged(ks, NullBulk)
      case AList(c) =>
        && (C.GetAsList(ks, args[1]).NotAList? ==> C.ExecRPopLPush(ks, args) == C.Unchanged(ks, C.WrongType()))
        && (!C.GetAsList(ks, args[1]).NotAList? && c != [] ==>
              var created := ks[args[1] := C.List(Before(ks, args[1]))];
              && Before(created, args[0]) == c
              && C.ExecRPopLPush(ks, args) == C.Done(Moved(created, args[0], args[1]), Bulk(c[|c| - 1])))
  {
    var source, dest := args[0], args[1];
    var f := C.GetAsList(ks, source);
    if f.AList? && !C.GetAsList(ks, dest).NotAList? && f.elems != [] && source != dest {
      var c := f.elems;
      var val, rest := c[|c| - 1], c[..|c| - 1];
      var put := ks[dest := C.List(Before(ks, dest))][source := C.List(rest)];
      var pushed := put[dest := C.List([val] + Before(ks, dest))];
      assert pushed == ks[dest := C.List([val] + Before(ks, dest))][source := C.List(rest)];
      assert pushed - {source} == ks[dest := C.List([val] + Before(ks, dest))] - {source};
    } else if f.AList? && f.elems != [] && source == dest {
      var c := f.elems;
      var val, rest := c[|c| - 1], c[..|c| - 1];
      assert ks[dest := C.List(c)][dest := C.List(rest)][dest := C.List([val] + rest)]
             == ks[dest := C.List([val] + rest)];
    }
  }

  /** The element moves from one stored list to another, or round one list. */
  method MoveElement(db: DB, sourceKey: Bytes, destKey: Bytes, source: LinkedList<Bytes>, dest: LinkedList<Bytes>)
    returns (val: Bytes)
    requires Stored(db, sourceKey, source) && Stored(db, destKey, dest) && source.Contents() != []
    modifies db`Repr, db.Repr
    ensures Stored(db, sourceKey, source) && fresh(db.Repr - old(db.Repr))
    ensures db.dict.table == old(db.dict.table) && db.aof == old(db.aof)
    ensures var c := old(source.Contents());
            var popped := old(db.View())[sourceKey := C.List(c[..|c| - 1])];
            && val == c[|c| - 1]
            && C.GetAsList(popped, destKey).AList?
            && db.View() == popped[destKey := C.List([val] + C.GetAsList(popped, destKey).elems)]
  {
    hide DB.View, DB.Owned, LinkedList.Valid, LinkedList.Contents, C.GetAsList, Footprint;
    db.Separate();
    val := PopFrom(db, sourceKey, source, false);
    StoredList(db, destKey);
    InsertFirst(db, destKey, dest, val);
    StoredList(db, sourceKey);
  }

  /** RPOPLPUSH between lists that exist: afterwards an emptied source is removed. */
  method MoveLast(db: DB, source: LinkedList<Bytes>, dest: LinkedList<Bytes>, args: seq<Bytes>) returns (val: Bytes)
    requires |args| == 2 && Stored(db, args[0], source) && Stored(db, args[1], dest)
    requires source.Contents() != [] && Before(db.View(), args[0]) == source.Contents()
    modifies db, db.Repr, db.dict, db.dict.table
    ensures db.Owned() && fresh(db.Repr - old(db.Repr)) && db.aof == old(db.aof) + [["rpoplpush"] + args]
    ensures db.dict.table == old(db.dict.table)
    ensures val == old(source.Contents()[|source.Contents()| - 1])
    ensures db.View() == Moved(old(db.View()), args[0], args[1])
  {
    hide DB.View, LinkedList.Valid, LinkedList.Contents, C.GetAsList, Footprint, DB.Owned;
    val := MoveElement(db, args[0], args[1], source, dest);
    StoredList(db, args[0]);
    DropIfEmpty(db, args[0], source, true, ["rpoplpush"] + args);
  }

  /** Source and destination may be one list. */
  method ExecRPopLPush(db: DB, args: seq<Bytes>) returns (r: Reply)
    requires db.Valid() && |args| == 2
    modifies db, db.Repr, db.dict, db.dict.table
    ensures db.Did(C.ExecRPopLPush(old(db.View()), args), "rpoplpush", args)
    ensures Answers(r, C.ExecRPopLPush(old(db.View()), args).answer)
  {
    hide DB.Owned, DB.View, LinkedList.Valid, LinkedList.Contents, C.ExecRPopLPush, C.GetAsList, Moved, C.WrongType;
    var sourceKey, destKey := args[0], args[1];
    RPopLPushEffect(db.View(), args);
    var source := GetAsList(db, sourceKey);
    if source.NotAList? {
      return C.WrongType();
    }
    if source.NoList? {
      return NullBulk;
    }
    NotEmpty(db, sourceKey, source.list);
    var dest := GetOrInitList(db, destKey);
    if dest.NotAList? {
      return C.WrongType();
    }
    StoredList(db, sourceKey);
    var val := MoveLast(db, source.list, dest.list, args);
    r := Bulk(val);
  }

  method RemoveFrom(db: DB, key: Bytes, list: LinkedList<Bytes>, value: Bytes, count: int) returns (removed: int)
    requires Stored(db, key, list)
    modifies db`Repr, list, list.nodes
    ensures Stored(db, key, list) && fresh(db.Repr - old(db.Repr))
    ensures list.Contents() == C.Removed(old(list.Contents()), value, count)
    ensures removed == |old(list.Contents())| - |list.Contents()|
    ensures db.View() == old(db.View())[key := C.List(list.Contents())]
  {
    hide DB.View, DB.Owned, LinkedList.Valid, LinkedList.Contents, Footprint, LinkedList.FirstRemoved;
    hide LinkedList.LastRemoved;
    db.Separate();
    if count == 0 {
      removed := list.RemoveAllByVal(value);
    } else if count > 0 {
      removed := list.RemoveByVal(value, count);
    } else {
      removed := list.ReverseRemoveByVal(value, Wrap64(-count));
    }
    db.Repr := db.Repr + Footprint(Items(list));
    db.ListChanged(key);
    StoredList(db, key);
  }

  lemma LRemEffect(ks: C.Keyspace, args: seq<Bytes>, count: int)
    requires |args| == 3 && ParseInt(args[1]) == Some(count)
    ensures match C.GetAsList(ks, args[0])
      case NotAList => C.ExecLRem(ks, args) == C.Unchanged(ks, C.WrongType())
      case NoList => C.ExecLRem(ks, args) == C.Unchanged(ks, Int(0))
      case AList(c) =>
        var rest := C.Removed(c, args[2], count);
        var after := ks[args[0] := C.List(rest)];
        C.ExecLRem(ks, args) ==
          C.Effect(if rest == [] then after - {args[0]} else after, C.Plain(Int(|c| - |rest|)), |c| - |rest| > 0)
  {
    hide C.Removed, ParseInt;
    assert ks[args[0] := C.List([])] - {args[0]} == ks - {args[0]};
  }

  method ExecLRem(db: DB, args: seq<Bytes>) returns (r: Reply)
    requires db.Owned() && |args| == 3
    modifies db, db.Repr, db.dict, db.dict.table
    ensures db.Did(C.ExecLRem(old(db.View()), args), "lrem", args)
    ensures Answers(r, C.ExecLRem(old(db.View()), args).answer)
  {
    hide DB.Owned, DB.View, LinkedList.Valid, LinkedList.Contents, C.ExecLRem, C.GetAsList, C.Removed, ParseInt;
    hide C.WrongType, C.NotInteger;
    var key := args[0];
    var count := ParseInt(args[1]);
    if count == None {
      LRemNotInteger(db.View(), args);
      return C.NotInteger();
    }
    LRemEffect(db.View(), args, count.value);
    var ref := GetAsList(db, key);
    if ref.NotAList? {
      return C.WrongType();
    }
    if ref.NoList? {
      return Int(0);
    }
    var removed := RemoveFrom(db, key, ref.list, args[2], count.value);
    DropIfEmpty(db, key, ref.list, removed > 0, ["lrem"] + args);
    r := Int(removed);
  }

  lemma LRemNotInteger(ks: C.Keyspace, args: seq<Bytes>)
    requires |args| == 3 && ParseInt(args[1]) == None
    ensures C.ExecLRem(ks, args) == C.Unchanged(ks, C.NotInteger())
  {
  }

  method SetAt(db: DB, key: Bytes, list: LinkedList<Bytes>, index: int, value: Bytes)
    requires Stored(db, key, list) && 0 <= index < |list.Contents()|
    modifies db`Repr, list.nodes
    ensures Stored(db, key, list) && fresh(db.Repr - old(db.Repr))
    ensures list.Contents() == old(list.Contents())[index := value]
    ensures db.View() == old(db.View())[key := C.List(list.Contents())]
  {
    hide DB.View, DB.Owned, LinkedList.Valid, LinkedList.Contents, Footprint;
    db.Separate();
    assert list.Len() > 0;
    list.Set(index, value);
    db.Repr := db.Repr + Footprint(Items(list));
    db.ListChanged(key);
    StoredList(db, key);
  }

  lemma LSetEffect(ks: C.Keyspace, args: seq<Bytes>)
    requires |args| == 3
    ensures ParseInt(args[1]) == None ==> C.ExecLSet(ks, args) == C.Unchanged(ks, C.NotInteger())
    ensures ParseInt(args[1]).Some? ==>
      match C.GetAsList(ks, args[0])
      case NotAList => C.ExecLSet(ks, args) == C.Unchanged(ks, C.WrongType())
      case NoList => C.ExecLSet(ks, args) == C.Unchanged(ks, Err("ERR no such key"))
      case AList(c) =>
        match C.Position(ParseInt(args[1]).value, |c|)
        case None => C.ExecLSet(ks, args) == C.Unchanged(ks, Err("ERR index out of range"))
        case Some(i) => C.ExecLSet(ks, args) == C.Done(ks[args[0] := C.List(c[i := args[2]])], OkReply())
  {
  }

  method ExecLSet(db: DB, args: seq<Bytes>) returns (r: Reply)
    requires db.Owned() && |args| == 3
    modifies db, db.Repr, db.dict, db.dict.table
    ensures db.Did(C.ExecLSet(old(db.View()), args), "lset", args)
    ensures Answers(r, C.ExecLSet(old(db.View()), args).answer)
  {
    hide DB.Owned, DB.View, LinkedList.Valid, LinkedList.Contents, C.ExecLSet, C.GetAsList, ParseInt;
    hide C.WrongType, C.NotInteger;
    LSetEffect(db.View(), args);
    var key := args[0];
    var index64 := ParseInt(args[1]);
    if index64 == None {
      return C.NotInteger();
    }
    var index := index64.value;
    var ref := GetAsList(db, key);
    if ref.NotAList? {
      return C.WrongType();
    }
    if ref.NoList? {
      return Err("ERR no such key");
    }
    var size := ref.list.Len();
    if index < -1 * size {
      return Err("ERR index out of range");
    } else if index < 0 {
      index := size + index;
    } else if index >= size {
      return Err("ERR index out of range");
    }
    SetAt(db, key, ref.list, index, args[2]);
    db.AddAof(["lset"] + args);
    r := OkReply();
  }

  method ExecLIndex(db: DB, args: seq<Bytes>) returns (r: Reply)
    requires db.Owned() && |args| == 2
    ensures C.ExecLIndex(db.View(), args) == C.Unchanged(db.View(), r)
  {
    hide DB.Owned, DB.View, LinkedList.Valid, LinkedList.Contents, C.GetAsList, ParseInt, C.WrongType, C.NotInteger;
    var index64 := ParseInt(args[1]);
    if index64 == None {
      return C.NotInteger();
    }
    var index := index64.value;
    var ref := GetAsList(db, args[0]);
    if ref.NotAList? {
      return C.WrongType();
    }
    if ref.NoList? {
      return NullBulk;
    }
    var size := ref.list.Len();
    if index < -1 * size {
      return NullBulk;
    } else if index < 0 {
      index := size + index;
    } else if index >= size {
      return NullBulk;
    }
    var val := ref.list.Get(index);
    r := Bulk(val);
  }

  method ExecLLen(db: DB, args: seq<Bytes>) returns (r: Reply)
    requires db.Owned() && |args| == 1
    ensures C.ExecLLen(db.View(), args) == C.Unchanged(db.View(), r)
  {
    hide DB.Owned, DB.View, LinkedList.Valid, LinkedList.Contents, C.GetAsList, C.WrongType;
    var ref := GetAsList(db, args[0]);
    if ref.NotAList? {
      return C.WrongType();
    }
    if ref.NoList? {
      return Int(0);
    }
    r := Int(ref.list.Len());
  }

  lemma LRangeEffect(ks: C.Keyspace, args: seq<Bytes>)
    requires |args| == 3
    ensures ParseInt(args[1]) == None || ParseInt(args[2]) == None ==>
      C.ExecLRange(ks, args) == C.Unchanged(ks, C.NotInteger())
    ensures ParseInt(args[1]).Some? && ParseInt(args[2]).Some? ==>
      match C.GetAsList(ks, args[0])
      case NotAList => C.ExecLRange(ks, args) == C.Unchanged(ks, C.WrongType())
      case NoList => C.ExecLRange(ks, args) == C.Unchanged(ks, EmptyMultiBulk)
      case AList(c) =>
        match C.RangeBounds(ParseInt(args[1]).value, ParseInt(args[2]).value, |c|)
        case None => C.ExecLRange(ks, args) == C.Unchanged(ks, EmptyMultiBulk)
        case Some(b) => 0 <= b.0 < |c| && b.0 <= b.1 <= |c| ==>
          C.ExecLRange(ks, args) == C.Unchanged(ks, MultiBulk(Present(c[b.0..b.1])))
  {
    hide ParseInt, C.RangeBounds;
  }

  /** The bounds handed to Range are in range because no stored list is empty. */
  method ExecLRange(db: DB, args: seq<Bytes>) returns (r: Reply)
    requires db.Valid() && |args| == 3
    ensures C.ExecLRange(db.View(), args) == C.Unchanged(db.View(), r)
  {
    hide DB.Owned, DB.View, LinkedList.Valid, LinkedList.Contents, C.GetAsList, ParseInt, C.ExecLRange;
    hide C.WrongType, C.NotInteger;
    LRangeEffect(db.View(), args);
    var start64 := ParseInt(args[1]);
    if start64 == None {
      return C.NotInteger();
    }
    var start := start64.value;
    var stop64 := ParseInt(args[2]);
    if stop64 == None {
      return C.NotInteger();
    }
    var stop := stop64.value;
    var ref := GetAsList(db, args[0]);
    if ref.NotAList? {
      return C.WrongType();
    }
    if ref.NoList? {
      return EmptyMultiBulk;
    }
    NotEmpty(db, args[0], ref.list);
    var size := ref.list.Len();
    if start < -1 * size {
      start := 0;
    } else if start < 0 {
      start := size + start;
    } else if start >= size {
      return EmptyMultiBulk;
    }
    if stop < -1 * size {
      stop := 0;
    } else if stop < 0 {
      stop := size + stop + 1;
    } else if stop < size {
      stop := stop + 1;
    } else {
      stop := size;
    }
    if stop < start {
      stop := start;
    }
    var slice := ref.list.Range(start, stop);
    r := MultiBulk(Present(slice));
  }

  /** LRANGE lists exactly the elements whose positions lie between the two bounds, both included
      and both counted from the end if negative, whatever the bounds. */
  lemma LRangeIsInclusiveSlice(ks: C.Keyspace, args: seq<Bytes>)
    requires |args| == 3 && ParseInt(args[1]).Some? && ParseInt(args[2]).Some?
    requires LogCompleteness.ListsNonEmpty(ks) && C.GetAsList(ks, args[0]).AList?
    ensures var c := C.GetAsList(ks, args[0]).elems;
            var slice := Between(c, FromEnd(ParseInt(args[1]).value, |c|), FromEnd(ParseInt(args[2]).value, |c|));
            || C.ExecLRange(ks, args) == C.Unchanged(ks, MultiBulk(Present(slice)))
            || (slice == [] && C.ExecLRange(ks, args) == C.Unchanged(ks, EmptyMultiBulk))
  {
    hide ParseInt, Between;
    var c := C.GetAsList(ks, args[0]).elems;
    BetweenIs(c, FromEnd(ParseInt(args[1]).value, |c|), FromEnd(ParseInt(args[2]).value, |c|));
  }
}
