/** The key commands on a database in memory (database/keys.go). */
module KeyCommands {
  import opened Bytes
  import opened Reply
  import C = Commands
  import opened HashSets
  import Wildcard
  import opened Database
  import D = ConcurrentDict

  method ExecDel(db: DB, args: seq<Bytes>) returns (r: Reply)
    requires db.Owned()
    modifies db, db.dict, db.dict.table
    ensures db.Did(C.ExecDel(old(db.View()), args), "del", args)
    ensures Answers(r, C.ExecDel(old(db.View()), args).answer)
  {
    hide DB.Owned, DB.View, C.Removes;
    var deleted := db.Removes(args);
    if deleted > 0 {
      db.AddAof(["del"] + args);
    }
    r := Int(deleted);
  }

  method ExecExists(db: DB, args: seq<Bytes>) returns (r: Reply)
    requires db.Owned()
    ensures C.ExecExists(db.View(), args) == C.Unchanged(db.View(), r)
  {
    hide DB.Owned, DB.View;
    var result := 0;
    for i := 0 to |args|
      invariant C.CountPresent(db.View(), args) == result + C.CountPresent(db.View(), args[i..])
    {
      db.Stores(args[i]);
      var entity := db.GetEntity(args[i]);
      if entity.Some? {
        result := result + 1;
      }
    }
    r := Int(result);
  }

  method ExecFlushDB(db: DB, args: seq<Bytes>) returns (r: Reply)
    requires db.Owned()
    modifies db, db.dict, db.dict.table
    ensures db.Did(C.ExecFlushDB(old(db.View()), args), "flushdb", args)
    ensures Answers(r, C.ExecFlushDB(old(db.View()), args).answer)
  {
    hide DB.Owned, DB.View;
    db.Flush();
    db.AddAof(["flushdb"] + args);
    r := OkReply();
  }

  method ExecType(db: DB, args: seq<Bytes>) returns (r: Reply)
    requires db.Owned() && |args| == 1
    ensures C.ExecType(db.View(), args) == C.Unchanged(db.View(), r)
  {
    var entity := db.GetEntity(args[0]);
    if entity.None? {
      return Status("none");
    }
    match entity.value
    case Text(_) => r := Status("string");
    case _ => r := C.UnknownError();
  }

  /** The destination is written before the source is removed, so renaming a key to itself
      removes it. */
  method ExecRename(db: DB, args: seq<Bytes>) returns (r: Reply)
    requires db.Owned() && |args| == 2
    modifies db, db.dict, db.dict.table
    ensures db.Did(C.ExecRename(old(db.View()), args), "rename", args)
    ensures Answers(r, C.ExecRename(old(db.View()), args).answer)
  {
    hide DB.Owned, DB.View;
    var src, dest := args[0], args[1];
    db.Stores(src);
    var entity := db.GetEntity(src);
    if entity.None? {
      return C.NoSuchKey();
    }
    db.Move(src, dest);
    db.AddAof(["rename"] + args);
    r := OkReply();
  }

  /** The key of a value and the destination are removed; the value stays as it is. */
  method Detach(db: DB, src: Bytes, dest: Bytes) returns (entity: Data)
    requires db.Owned() && src in db.data
    modifies db`data, db.dict, db.dict.table
    ensures db.Owned() && db.View() == C.Removes(old(db.View()), [src, dest]).0
    ensures db.Apart(entity) && ViewOf(entity) == old(ViewOf(db.data[src])) && db.dict.table == old(db.dict.table)
  {
    hide *;
    db.Separate();
    var taken := db.GetEntity(src);
    entity := taken.value;
    var removed := db.Removes([src, dest]);
    assert src in [src, dest];
    db.Detached(src);
  }

  /** Taking a value out of the database. */
  method TakeOut(db: DB, src: Bytes, dest: Bytes) returns (entity: Data)
    requires db.Owned() && src in db.data
    modifies db`data, db`Repr, db.dict, db.dict.table
    ensures db.Loose(entity) && ViewOf(entity) == old(db.View())[src]
    ensures db.Owned() && db.View() == C.Removes(old(db.View()), [src, dest]).0
    ensures db.Repr <= old(db.Repr) && Footprint(entity) <= old(db.Repr) && db.dict.table == old(db.dict.table)
  {
    hide *;
    db.ViewAt(src);
    entity := Detach(db, src, dest);
    db.Forget(entity);
  }

  lemma RemoveTwo(ks: C.Keyspace, src: Bytes, dest: Bytes)
    ensures C.Removes(ks, [src, dest]).0 == ks - {src, dest}
  {
    assert [src, dest][1..] == [dest] && [dest][1..] == [];
    assert C.Removes(ks - {src} - {dest}, []).0 == ks - {src} - {dest};
    assert ks - {src} - {dest} == ks - {src, dest};
  }

  /** The value is taken out and bound anew. */
  method ExecRenameNx(db: DB, args: seq<Bytes>) returns (r: Reply)
    requires db.Owned() && |args| == 2
    modifies db, db.dict, db.dict.table
    ensures db.Did(C.ExecRenameNx(old(db.View()), args), "renamenx", args)
    ensures Answers(r, C.ExecRenameNx(old(db.View()), args).answer)
  {
    hide DB.Owned, DB.View, C.Removes, ViewOf;
    var src, dest := args[0], args[1];
    db.Stores(dest);
    db.Stores(src);
    var there := db.GetEntity(dest);
    if there.Some? {
      return Int(0);
    }
    var here := db.GetEntity(src);
    if here.None? {
      return C.NoSuchKey();
    }
    RemoveTwo(db.View(), src, dest);
    var entity := TakeOut(db, src, dest);
    db.PutEntity(dest, entity);
    db.AddAof(["renamenx"] + args);
    r := Int(1);
  }

  predicate Matched(pattern: Bytes, key: Bytes) {
    Wildcard.Matches(Wildcard.Pattern(pattern), key)
  }

  ghost function MatchedIn(pattern: Bytes, keys: set<Bytes>): set<Bytes> {
    set key | key in keys && Matched(pattern, key)
  }

  /** ForEach on one shard, in any order, with the function that collects the keys that match. */
  method MatchShard(d: D.ConcurrentDict<Data>, s: nat, items: seq<Wildcard.Item>, ghost pattern: Bytes,
                    result: seq<Bytes>, ghost seen: set<Bytes>)
    returns (result': seq<Bytes>, ghost seen': set<Bytes>)
    requires d.Valid() && s < d.table.Length && items == Wildcard.Pattern(pattern)
    requires D.Visited(d.hash, d.contents, d.table.Length, s, {}, seen) && Lists(result, MatchedIn(pattern, seen))
    ensures D.Visited(d.hash, d.contents, d.table.Length, s + 1, {}, seen') && Lists(result', MatchedIn(pattern, seen'))
  {
    hide D.Stored, D.Visited, D.ShardOf, Lists, Matched, MatchedIn;
    result', seen' := result, seen;
    var rest := d.table[s].Keys;
    D.EnterShard(d.hash, d.contents, d.table[..], s, seen);
    while rest != {}
      invariant rest <= d.table[s].Keys
      invariant D.Visited(d.hash, d.contents, d.table.Length, s + 1, rest, seen')
      invariant Lists(result', MatchedIn(pattern, seen'))
      decreases rest
    {
      var key :| key in rest;
      D.VisitNext(d.hash, d.contents, d.table[..], s, rest, seen', key);
      MatchOneMore(pattern, seen', key);
      var matched := Wildcard.IsMatch(items, key);
      MatchedIff(pattern, key);
      if matched {
        ListsMore(result', MatchedIn(pattern, seen'), key);
        result' := result' + [key];
      }
      seen' := seen' + {key};
      rest := rest - {key};
    }
  }

  /** KEYS lists every stored key that matches the pattern once, in any order. */
  method ExecKeys(db: DB, args: seq<Bytes>) returns (r: Reply)
    requires db.Owned() && |args| == 1
    ensures var e := C.ExecKeys(db.View(), args); e.ks == db.View() && !e.logged && Answers(r, e.answer)
  {
    var d := db.dict;
    assert d.Valid() && d.contents == db.data;
    hide DB.Owned, DB.View, D.Stored, D.Visited, Lists, MatchedIn;
    var items := Wildcard.CompilePattern(args[0]);
    var result: seq<Bytes> := [];
    ghost var seen: set<Bytes> := {};
    NothingMatched(args[0]);
    D.VisitedNothing(d.hash, d.contents, d.table[..]);
    for s := 0 to d.table.Length
      invariant D.Visited(d.hash, d.contents, d.table.Length, s, {}, seen) && Lists(result, MatchedIn(args[0], seen))
    {
      result, seen := MatchShard(d, s, items, args[0], result, seen);
    }
    D.VisitedAll(d.hash, d.contents, d.table[..], seen);
    assert seen == db.View().Keys by {
      forall k ensures k in db.data <==> k in db.View() {
        db.Stores(k);
      }
    }
    KeysEffect(db.View(), args);
    r := MultiBulk(Present(result));
  }

  lemma KeysEffect(ks: C.Keyspace, args: seq<Bytes>)
    requires |args| == 1
    ensures C.ExecKeys(ks, args).answer == C.Members(MatchedIn(args[0], ks.Keys))
  {
    hide Wildcard.Matches, Wildcard.Pattern;
    assert (set k | k in ks && Wildcard.Matches(Wildcard.Pattern(args[0]), k)) == MatchedIn(args[0], ks.Keys);
  }

  lemma MatchedIff(pattern: Bytes, key: Bytes)
    ensures Matched(pattern, key) <==> exists segments :: Wildcard.Splits(Wildcard.Pattern(pattern), key, segments)
  {
    Wildcard.MatchesIff(Wildcard.Pattern(pattern), key);
  }

  /** So KEYS lists exactly the stored keys that split into consecutive segments along the pattern. */
  lemma KeysAreSplit(ks: C.Keyspace, args: seq<Bytes>, key: Bytes)
    requires |args| == 1
    ensures var a := C.ExecKeys(ks, args).answer;
            a.Members? && (key in a.members <==>
              key in ks && exists segments :: Wildcard.Splits(Wildcard.Pattern(args[0]), key, segments))
  {
    KeysEffect(ks, args);
    MatchedIff(args[0], key);
  }

  lemma NothingMatched(pattern: Bytes)
    ensures Lists([], MatchedIn(pattern, {}))
  {
    assert MatchedIn(pattern, {}) == {};
    ListsNothing();
  }

  lemma MatchOneMore(pattern: Bytes, seen: set<Bytes>, key: Bytes)
    requires key !in seen
    ensures var before := MatchedIn(pattern, seen);
            MatchedIn(pattern, seen + {key}) == (if Matched(pattern, key) then before + {key} else before) &&
              key !in before
  {
    hide Matched;
  }
}
