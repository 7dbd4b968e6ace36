/** One database as it is in memory (database/db.go): keys bound to entities, of which lists and
    sets are objects that commands change in place. */
module Database {
  import opened Bytes
  import opened Reply
  import Commands
  import LogCompleteness
  import opened LinkedLists
  import opened HashSets
  import D = ConcurrentDict
  import Capacity

  const DATA_DICT_SIZE := 0x1_0000

  /** DataEntity.Data. */
  datatype Data = Text(bytes: Option<Bytes>) | Items(list: LinkedList<Bytes>) | Elements(elems: HashSet)

  /** The objects that a value is made of. */
  ghost function Footprint(d: Data): set<object>
    reads if d.Items? then {d.list} else {}
  {
    match d
    case Text(_) => {}
    case Items(l) => {l} + set i | 0 <= i < |l.nodes| :: l.nodes[i]
    case Elements(s) => {s}
  }

  /** What a value stands for. */
  ghost function ViewOf(d: Data): Commands.Entity
    reads Footprint(d), if d.Items? then {d.list} else {}
  {
    match d
    case Text(b) => Commands.Str(b)
    case Items(l) => Commands.List(l.Contents())
    case Elements(s) => Commands.Set(s.members)
  }

  /** A value that is intact and made of objects in r. */
  ghost predicate Held(d: Data, r: set<object>)
    reads r
  {
    && (d.Items? ==> d.list in r)
    && Footprint(d) <= r
    && (d.Items? ==> d.list.Valid())
  }

  /** Every value is intact, and no two keys share an object. */
  ghost predicate Tidy(m: map<Bytes, Data>, r: set<object>)
    reads r
  {
    && (forall k :: k in m ==> Held(m[k], r))
    && (forall j, k :: j in m && k in m && j != k ==> Footprint(m[j]) !! Footprint(m[k]))
  }

  /** The keyspace that the bindings stand for. */
  ghost function Views(m: map<Bytes, Data>, r: set<object>): Commands.Keyspace
    requires Tidy(m, r)
    reads r
  {
    map k | k in m :: ViewOf(m[k])
  }

  lemma TidyPut(m: map<Bytes, Data>, r: set<object>, key: Bytes, d: Data)
    requires Tidy(m, r) && Footprint(d) !! r && (d.Items? ==> d.list.Valid())
    ensures Tidy(m[key := d], r + Footprint(d))
    ensures Views(m[key := d], r + Footprint(d)) == Views(m, r)[key := ViewOf(d)]
  {
    hide ViewOf;
    assert forall k :: k in m ==> Held(m[k], r);
  }

  lemma TidyRemove(m: map<Bytes, Data>, r: set<object>, keys: set<Bytes>)
    requires Tidy(m, r)
    ensures Tidy(m - keys, r) && Views(m - keys, r) == Views(m, r) - keys
  {
    hide ViewOf, Held, Footprint;
  }

  lemma TidyMove(m: map<Bytes, Data>, r: set<object>, src: Bytes, dest: Bytes)
    requires Tidy(m, r) && src in m
    ensures Tidy(m[dest := m[src]] - {src}, r)
    ensures Views(m[dest := m[src]] - {src}, r) == Views(m, r)[dest := Views(m, r)[src]] - {src}
  {
    hide ViewOf, Held, Footprint;
  }

  lemma AllHeld(m: map<Bytes, Data>, r: set<object>)
    requires Tidy(m, r)
    ensures forall k :: k in m ==> Held(m[k], r)
  {
    hide Held, Footprint;
  }

  lemma TidyForget(m: map<Bytes, Data>, r: set<object>, d: Data)
    requires Tidy(m, r) && forall k :: k in m ==> Footprint(m[k]) !! Footprint(d)
    ensures Tidy(m, r - Footprint(d)) && Views(m, r - Footprint(d)) == Views(m, r)
  {
    hide ViewOf;
    assert forall k :: k in m ==> Held(m[k], r);
  }

  /** What an answer allows a reply to be. */
  ghost predicate Answers(r: Reply, a: Commands.Answer) {
    match a
    case Plain(reply) => r == reply
    case Members(members) => exists slice :: Lists(slice, members) && r == MultiBulk(Present(slice))
  }

  class DB {
    /** The sharded dictionary of the database, and what it holds. */
    const dict: D.ConcurrentDict<Data>
    ghost var data: map<Bytes, Data>
    /** The lines handed to addAof. */
    var aof: seq<Commands.CmdLine>
    /** The objects that the values are made of. */
    ghost var Repr: set<object>

    /** The dictionary is intact and holds the data. */
    ghost predicate Backed()
      reads this, dict, dict.table
    {
      dict.Valid() && dict.contents == data && dict !in Repr && dict.table !in Repr
    }

    /** d is intact and made of objects of this database. */
    ghost predicate Holds(d: Data)
      reads this, Repr
    {
      Held(d, Repr)
    }

    /** The objects of this database are tidily divided among its keys. */
    ghost predicate Owned()
      reads this, Repr, dict, dict.table
    {
      this !in Repr && Tidy(data, Repr) && Backed()
    }

    lemma Separate()
      requires Owned()
      ensures this !in Repr && dict !in Repr && dict.table !in Repr
    {
    }

    /** The keyspace that the database stands for. */
    ghost function View(): Commands.Keyspace
      requires Owned()
      reads this, Repr, dict, dict.table
    {
      Views(data, Repr)
    }

    /** Between commands there are no empty lists either. */
    ghost predicate Valid()
      reads this, Repr, dict, dict.table
    {
      Owned() && LogCompleteness.ListsNonEmpty(View())
    }

    /** makeDB. */
    constructor (fn: D.Hash)
      ensures Valid() && View() == map[] && aof == [] && fresh(Repr) && fresh(dict) && fresh(dict.table)
    {
      hide D.Stored, Capacity.CapacityOf;
      Capacity.SizeRange(DATA_DICT_SIZE);
      dict := new D.ConcurrentDict<Data>(fn, DATA_DICT_SIZE);
      data, aof, Repr := map[], [], {};
    }

    /** What a command may do: bring the keyspace to what the command's effect says, log it if
        the effect says so, and take in only new objects. */
    twostate predicate Did(e: Commands.Effect, name: Bytes, args: seq<Bytes>)
      reads this, Repr, dict, dict.table
    {
      && Owned() && View() == e.ks
      && fresh(Repr - old(Repr)) && (dict.table == old(dict.table) || fresh(dict.table))
      && aof == old(aof) + if e.logged then [[name] + args] else []
    }

    /** A value none of whose objects has been changed. */
    twostate lemma Untouched(d: Data)
      requires old(Holds(d)) && old(Repr) <= Repr
      requires forall o: object :: o in old(Footprint(d)) ==> unchanged(o)
      ensures Footprint(d) == old(Footprint(d)) && Holds(d) && ViewOf(d) == old(ViewOf(d))
    {
      assert d.Items? ==> d.list in old(Footprint(d));
      assert d.Items? ==> forall i :: 0 <= i < |d.list.nodes| ==> d.list.nodes[i] in old(Footprint(d));
      assert d.Elements? ==> d.elems in old(Footprint(d));
    }

    method GetEntity(key: Bytes) returns (entity: Option<Data>)
      requires Owned()
      ensures entity == if key in data then Some(data[key]) else None
    {
      entity := dict.Get(key);
    }

    /** An intact value that shares no object with the database. */
    ghost predicate Loose(d: Data)
      reads this, dict, Footprint(d), if d.Items? then {d.list} else {}
    {
      && this !in Footprint(d) && dict !in Footprint(d) && dict.table !in Footprint(d)
      && Footprint(d) !! Repr && (d.Items? ==> d.list.Valid())
    }

    /** An intact value of this database that shares no object with the value of any key. */
    ghost predicate Apart(d: Data)
      reads this, Repr
    {
      Holds(d) && forall k :: k in data && Held(data[k], Repr) ==> Footprint(data[k]) !! Footprint(d)
    }

    /** A value whose key has been removed is as it was, and no other key shares an object with it. */
    twostate lemma Detached(key: Bytes)
      requires old(Owned()) && Owned() && Repr == old(Repr) && key in old(data)
      requires forall k :: k in data ==> k in old(data) && k != key && data[k] == old(data)[k]
      requires forall o: object :: o in old(Repr) ==> unchanged(o)
      ensures var d := old(data)[key];
        Apart(d) && ViewOf(d) == old(ViewOf(d))
    {
      var d := old(data)[key];
      assert old(Holds(d));
      hide D.ConcurrentDict.Valid;
      Untouched(d);
      forall k | k in data ensures Footprint(data[k]) !! Footprint(d) {
        assert old(Holds(data[k]));
        assert old(Footprint(data[k]) !! Footprint(d));
        Untouched(data[k]);
      }
    }

    /** Putting a new value. */
    method PutEntity(key: Bytes, d: Data)
      requires Owned() && Loose(d)
      modifies this`data, this`Repr, dict, dict.table
      ensures Owned() && View() == old(View())[key := ViewOf(d)] && data == old(data)[key := d]
      ensures Repr == old(Repr) + Footprint(d) && dict.table == old(dict.table)
    {
      hide Tidy, Views, ViewOf, D.ConcurrentDict.Valid;
      TidyPut(data, Repr, key, d);
      var _ := dict.Put(key, d);
      data := data[key := d];
      Repr := Repr + Footprint(d);
    }

    /** Putting a string only where there is no value, or only where there is one. */
    method PutIfAbsent(key: Bytes, text: Bytes) returns (result: int)
      requires Owned()
      modifies this`data, dict, dict.table
      ensures Owned() && dict.table == old(dict.table) && result == (if key in old(View()) then 0 else 1)
      ensures View() == if result == 0 then old(View()) else old(View())[key := Commands.Str(Some(text))]
    {
      hide Tidy, Views, ViewOf, D.ConcurrentDict.Valid;
      TextPut(key, text);
      result := dict.PutIfAbsent(key, Text(Some(text)));
      data := if result == 0 then data else data[key := Text(Some(text))];
    }

    method PutIfExists(key: Bytes, text: Bytes) returns (result: int)
      requires Owned()
      modifies this`data, dict, dict.table
      ensures Owned() && dict.table == old(dict.table) && result == (if key in old(View()) then 1 else 0)
      ensures View() == if result == 0 then old(View()) else old(View())[key := Commands.Str(Some(text))]
    {
      hide Tidy, Views, ViewOf, D.ConcurrentDict.Valid;
      TextPut(key, text);
      result := dict.PutIfExists(key, Text(Some(text)));
      data := if result == 0 then data else data[key := Text(Some(text))];
    }

    /** A string has no objects of its own. */
    lemma TextPut(key: Bytes, text: Bytes)
      requires Owned()
      ensures key in data <==> key in View()
      ensures var d := Text(Some(text));
        && Tidy(data[key := d], Repr)
        && Views(data[key := d], Repr) == Views(data, Repr)[key := Commands.Str(Some(text))]
    {
      hide Tidy;
      Stores(key);
      TidyPut(data, Repr, key, Text(Some(text)));
      assert Repr + {} == Repr;
    }

    method Remove(key: Bytes)
      requires Owned()
      modifies this`data, dict, dict.table
      ensures Owned() && View() == old(View()) - {key} && data == old(data) - {key} && dict.table == old(dict.table)
    {
      hide Tidy, Views, D.ConcurrentDict.Valid;
      TidyRemove(data, Repr, {key});
      var _ := dict.Remove(key);
      data := data - {key};
    }

    /** Keys are removed one by one and counted. */
    method Removes(keys: seq<Bytes>) returns (deleted: int)
      requires Owned()
      modifies this`data, dict, dict.table
      ensures Owned() && (View(), deleted) == Commands.Removes(old(View()), keys) && dict.table == old(dict.table)
      ensures forall k :: k in data ==> k in old(data) && k !in keys && data[k] == old(data)[k]
    {
      hide Owned, View;
      deleted := 0;
      for i := 0 to |keys|
        invariant Owned() && dict.table == old(dict.table)
        invariant forall k :: k in data ==> k in old(data) && k !in keys[..i] && data[k] == old(data)[k]
        invariant var r := Commands.Removes(View(), keys[i..]);
                  Commands.Removes(old(View()), keys) == (r.0, r.1 + deleted)
      {
        Stores(keys[i]);
        Commands.RemovesStep(View(), keys[i..]);
        assert keys[i] !in View() ==> View() - {keys[i]} == View();
        var entity := GetEntity(keys[i]);
        if entity.Some? {
          Remove(keys[i]);
          deleted := deleted + 1;
        }
      }
    }

    lemma Stores(key: Bytes)
      requires Owned()
      ensures key in View() <==> key in data
    {
    }

    lemma ViewAt(key: Bytes)
      requires Owned() && key in data
      ensures key in View() && View()[key] == ViewOf(data[key])
    {
    }

    /** Flush: the dictionary is replaced by a new one. */
    method Flush()
      requires Owned()
      modifies this`data, dict, dict.table
      ensures Owned() && View() == map[] && fresh(dict.table)
    {
      hide D.ConcurrentDict.Valid;
      dict.Clear();
      data := map[];
    }

    /** The value of a key is bound to a second key, which takes it over: PutEntity, then Remove. */
    method Move(src: Bytes, dest: Bytes)
      requires Owned() && src in data
      modifies this`data, dict, dict.table
      ensures Owned() && View() == old(View())[dest := old(View())[src]] - {src} && dict.table == old(dict.table)
    {
      hide Tidy, Views, D.ConcurrentDict.Valid;
      TidyMove(data, Repr, src, dest);
      var entity := dict.Get(src);
      var _ := dict.Put(dest, entity.value);
      data := data[dest := data[src]];
      var _ := dict.Remove(src);
      data := data - {src};
    }

    /** A value that no key is bound to any more is no part of the database. */
    ghost method Forget(d: Data)
      requires Owned() && Apart(d)
      modifies this`Repr
      ensures Owned() && View() == old(View()) && Loose(d) && ViewOf(d) == old(ViewOf(d))
      ensures Repr <= old(Repr) && Footprint(d) <= old(Repr)
    {
      hide Tidy, Views, D.ConcurrentDict.Valid;
      AllHeld(data, Repr);
      TidyForget(data, Repr, d);
      Repr := Repr - Footprint(d);
    }

    method AddAof(line: Commands.CmdLine)
      requires Owned()
      modifies this`aof
      ensures Owned() && View() == old(View()) && aof == old(aof) + [line]
    {
      hide Tidy, Views, D.ConcurrentDict.Valid;
      aof := aof + [line];
    }

    /** The value of one key has been changed in place and may have taken in new objects. */
    twostate lemma Changed(key: Bytes)
      requires old(Owned()) && data == old(data) && key in data && unchanged(dict) && unchanged(dict.table)
      requires forall o :: o in Footprint(data[key]) ==> fresh(o) || o in old(Footprint(data[key]))
      requires Repr == old(Repr) + Footprint(data[key])
      requires data[key].Items? ==> data[key].list.Valid()
      requires forall o: object :: o in old(Repr) && o !in old(Footprint(data[key])) ==> unchanged(o)
      ensures Owned() && View() == old(View())[key := ViewOf(data[key])]
    {
      hide D.ConcurrentDict.Valid;
      forall k | k in data && k != key
        ensures Footprint(data[k]) == old(Footprint(data[k])) && Holds(data[k]) &&
                ViewOf(data[k]) == old(ViewOf(data[k]))
      {
        assert old(Footprint(data[k]) !! Footprint(data[key]));
        Untouched(data[k]);
      }
    }

    /** The list of one key has been changed in place. */
    twostate lemma ListChanged(key: Bytes)
      requires old(Owned()) && data == old(data) && key in data && data[key].Items?
      requires unchanged(dict) && unchanged(dict.table)
      requires var list := data[key].list;
               && list.Valid() && list.OnlyFresh(old(list.nodes))
               && Repr == old(Repr) + Footprint(data[key])
               && forall o: object :: o in old(Repr) && o != list && o !in old(list.nodes) ==> unchanged(o)
      ensures Owned() && View() == old(View())[key := Commands.List(data[key].list.Contents())]
      ensures fresh(Repr - old(Repr))
    {
      hide View, LinkedList.Valid;
      assert old(Holds(data[key]));
      hide Owned;
      Changed(key);
    }

    /** The set of one key has been changed in place. */
    twostate lemma SetChanged(key: Bytes)
      requires old(Owned()) && data == old(data) && Repr == old(Repr) && key in data && data[key].Elements?
      requires unchanged(dict) && unchanged(dict.table)
      requires forall o: object :: o in old(Repr) && o != data[key].elems ==> unchanged(o)
      ensures Owned() && View() == old(View())[key := Commands.Set(data[key].elems.members)]
    {
      hide View;
      assert old(Holds(data[key]));
      hide Owned;
      Changed(key);
    }
  }
}
