/** Undo commands for list commands (database/list.go): they are computed before the command
    runs and executed afterwards to take it back. */
module Undo {
  import opened Bytes
  import opened Reply
  import opened Sequences
  import opened Commands
  import opened LogCompleteness

  /** The list commands that have an undo function. */
  predicate HasUndo(c: ListCommand) {
    match c
    case CLPush | CRPush | CLPop | CRPop | CLSet | CRPopLPush => true
    case _ => false
  }

  function Repeat(line: CmdLine, n: nat): seq<CmdLine> {
    if n == 0 then [] else [line] + Repeat(line, n - 1)
  }

  function UndoPush(args: seq<Bytes>, popName: Bytes): seq<CmdLine>
    requires args != []
  {
    Repeat([popName, args[0]], |args| - 1)
  }

  function UndoLPop(ks: Keyspace, args: seq<Bytes>): seq<CmdLine>
    requires args != []
  {
    var l := GetAsList(ks, args[0]);
    if !l.AList? || l.elems == [] then [] else [["LPUSH", args[0], l.elems[0]]]
  }

  function UndoRPop(ks: Keyspace, args: seq<Bytes>): seq<CmdLine>
    requires args != []
  {
    var l := GetAsList(ks, args[0]);
    if !l.AList? || l.elems == [] then [] else [["RPUSH", args[0], l.elems[|l.elems| - 1]]]
  }

  function UndoLSet(ks: Keyspace, args: seq<Bytes>): seq<CmdLine>
    requires |args| == 3
  {
    var l, index := GetAsList(ks, args[0]), ParseInt(args[1]);
    if index == None || !l.AList? || Position(index.value, |l.elems|) == None then []
    else [["LSET", args[0], args[1], l.elems[Position(index.value, |l.elems|).value]]]
  }

  function UndoRPopLPush(ks: Keyspace, args: seq<Bytes>): seq<CmdLine>
    requires |args| == 2
  {
    var l := GetAsList(ks, args[0]);
    if !l.AList? || l.elems == [] then []
    else [["RPUSH", args[0], l.elems[|l.elems| - 1]], ["LPOP", args[1]]]
  }

  function UndoOf(c: ListCommand, ks: Keyspace, args: seq<Bytes>): seq<CmdLine>
    requires HasUndo(c) && Callable(OnList(c), args)
  {
    match c
    case CLPush => UndoPush(args, "LPOP")
    case CRPush => UndoPush(args, "RPOP")
    case CLPop => UndoLPop(ks, args)
    case CRPop => UndoRPop(ks, args)
    case CLSet => UndoLSet(ks, args)
    case CRPopLPush => UndoRPopLPush(ks, args)
  }

  function ExecAll(ks: Keyspace, lines: seq<CmdLine>): Keyspace
    decreases |lines|
  {
    if lines == [] then ks else ExecAll(Exec(ks, lines[0]).0.ks, lines[1..])
  }

  // ---- the lines that undo functions build

  lemma UpperNames()
    ensures ToLower("LPUSH") == ListName(CLPush) && ToLower("RPUSH") == ListName(CRPush)
    ensures ToLower("LPOP") == ListName(CLPop) && ToLower("RPOP") == ListName(CRPop)
    ensures ToLower("LSET") == ListName(CLSet)
  {
  }

  /** Executing a line whose name lowers to that of a list command. */
  lemma ExecList(ks: Keyspace, c: ListCommand, line: CmdLine)
    requires ToLower(line[0]) == ListName(c) && Callable(OnList(c), line[1..])
    ensures Exec(ks, line).0.ks == RunList(c, ks, line[1..]).ks
  {
    hide ToLower, Lookup, ListName, RunList;
    ListNameFinds(c);
  }

  lemma ExecPush1(ks: Keyspace, key: Bytes, val: Bytes)
    ensures Exec(ks, ["LPUSH", key, val]).0.ks == ExecPush(ks, [key, val], true, false).ks
    ensures Exec(ks, ["RPUSH", key, val]).0.ks == ExecPush(ks, [key, val], false, false).ks
  {
    hide Exec, ExecPush, ToLower;
    UpperNames();
    assert ["LPUSH", key, val][1..] == [key, val] && ["RPUSH", key, val][1..] == [key, val];
    ExecList(ks, CLPush, ["LPUSH", key, val]);
    ExecList(ks, CRPush, ["RPUSH", key, val]);
  }

  lemma ExecPop1(ks: Keyspace, key: Bytes)
    ensures Exec(ks, ["LPOP", key]).0.ks == ExecPop(ks, [key], true).ks
    ensures Exec(ks, ["RPOP", key]).0.ks == ExecPop(ks, [key], false).ks
  {
    hide Exec, ExecPop, ToLower;
    UpperNames();
    assert ["LPOP", key][1..] == [key] && ["RPOP", key][1..] == [key];
    ExecList(ks, CLPop, ["LPOP", key]);
    ExecList(ks, CRPop, ["RPOP", key]);
  }

  lemma ExecLSet1(ks: Keyspace, key: Bytes, index: Bytes, val: Bytes)
    ensures Exec(ks, ["LSET", key, index, val]).0.ks == ExecLSet(ks, [key, index, val]).ks
  {
    hide Exec, ExecLSet, ToLower;
    UpperNames();
    assert ["LSET", key, index, val][1..] == [key, index, val];
    ExecList(ks, CLSet, ["LSET", key, index, val]);
  }

  lemma ExecOne(ks: Keyspace, line: CmdLine)
    ensures ExecAll(ks, [line]) == Exec(ks, line).0.ks
  {
    hide Exec;
    assert [line][1..] == [];
  }

  lemma ExecTwo(ks: Keyspace, a: CmdLine, b: CmdLine)
    ensures ExecAll(ks, [a, b]) == Exec(Exec(ks, a).0.ks, b).0.ks
  {
    hide Exec;
    assert [a, b][1..] == [b];
    ExecOne(Exec(ks, a).0.ks, b);
  }

  // ---- command by command

  /** Popping pushed values one by one. */
  lemma {:induction false} PopAll(ks: Keyspace, key: Bytes, pushed: seq<Bytes>, kept: seq<Bytes>, front: bool)
    ensures ExecAll(PutOrDrop(ks, key, if front then pushed + kept else kept + pushed),
                    Repeat([if front then "LPOP" else "RPOP", key], |pushed|))
            == PutOrDrop(ks, key, kept)
    decreases |pushed|
  {
    hide Exec;
    var line: CmdLine := [if front then "LPOP" else "RPOP", key];
    var n := |pushed|;
    if n == 0 {
      assert pushed + kept == kept && kept + pushed == kept;
    } else {
      var rest := if front then pushed[1..] else pushed[..n - 1];
      var all := if front then pushed + kept else kept + pushed;
      var left := if front then rest + kept else kept + rest;
      assert left == if front then all[1..] else all[..|all| - 1];
      ExecPop1(PutOrDrop(ks, key, all), key);
      PopPut(ks, key, all, front);
      PopAll(ks, key, rest, kept, front);
      assert Repeat(line, n)[1..] == Repeat(line, n - 1);
    }
  }

  lemma PopPut(ks: Keyspace, key: Bytes, elems: seq<Bytes>, front: bool)
    requires elems != []
    ensures ExecPop(PutOrDrop(ks, key, elems), [key], front).ks ==
            PutOrDrop(ks, key, if front then elems[1..] else elems[..|elems| - 1])
  {
    var rest := if front then elems[1..] else elems[..|elems| - 1];
    assert rest == [] ==> ks[key := List(elems)] - {key} == ks - {key};
    assert ks[key := List(elems)][key := List(rest)] == ks[key := List(rest)];
  }

  /** A list that is stored, or an absent key. */
  lemma PutBack(ks: Keyspace, key: Bytes)
    requires ListsNonEmpty(ks) && !GetAsList(ks, key).NotAList?
    ensures PutOrDrop(ks, key, if key in ks then ks[key].elems else []) == ks
  {
  }

  lemma {:induction false} PopsOfOthers(ks: Keyspace, line: CmdLine, n: nat)
    requires Exec(ks, line).0.ks == ks
    ensures ExecAll(ks, Repeat(line, n)) == ks
  {
    hide Exec;
    if n > 0 {
      PopsOfOthers(ks, line, n - 1);
      assert Repeat(line, n)[1..] == Repeat(line, n - 1);
    }
  }

  lemma UndoPushRestores(ks: Keyspace, args: seq<Bytes>, front: bool)
    requires ListsNonEmpty(ks) && |args| >= 2
    ensures ExecAll(ExecPush(ks, args, front, false).ks, UndoPush(args, if front then "LPOP" else "RPOP")) == ks
  {
    hide Exec, WrongType;
    var key, values := args[0], args[1..];
    var line: CmdLine := [if front then "LPOP" else "RPOP", key];
    if GetAsList(ks, key).NotAList? {
      ExecPop1(ks, key);
      PopsOfOthers(ks, line, |values|);
    } else {
      var before := if key in ks then ks[key].elems else [];
      PopAll(ks, key, if front then Reverse(values) else values, before, front);
      PutBack(ks, key);
    }
  }

  lemma UndoPopRestores(ks: Keyspace, args: seq<Bytes>, front: bool)
    requires ListsNonEmpty(ks) && |args| == 1
    ensures ExecAll(ExecPop(ks, args, front).ks, if front then UndoLPop(ks, args) else UndoRPop(ks, args)) == ks
  {
    hide Exec, WrongType;
    var key := args[0];
    var l := GetAsList(ks, key);
    if l.AList? {
      var i := if front then 0 else |l.elems| - 1;
      var rest := if front then l.elems[1..] else l.elems[..|l.elems| - 1];
      var after := PutOrDrop(ks, key, rest);
      ExecOne(after, [if front then "LPUSH" else "RPUSH", key, l.elems[i]]);
      ExecPush1(after, key, l.elems[i]);
      PushBack(ks, key, rest, l.elems[i], front);
      assert l.elems == if front then [l.elems[i]] + rest else rest + [l.elems[i]];
    }
  }

  lemma PushBack(ks: Keyspace, key: Bytes, rest: seq<Bytes>, val: Bytes, front: bool)
    ensures ExecPush(PutOrDrop(ks, key, rest), [key, val], front, false).ks ==
            ks[key := List(if front then [val] + rest else rest + [val])]
  {
    assert [key, val][1..] == [val] && Reverse([val]) == [val];
    assert rest == [] ==> [val] + rest == [val] && rest + [val] == [val];
  }

  lemma UndoLSetRestores(ks: Keyspace, args: seq<Bytes>)
    requires |args| == 3
    ensures ExecAll(ExecLSet(ks, args).ks, UndoLSet(ks, args)) == ks
  {
    hide Exec, WrongType, NotInteger, ParseInt;
    var l, index := GetAsList(ks, args[0]), ParseInt(args[1]);
    if index.Some? && l.AList? && Position(index.value, |l.elems|).Some? {
      var i := Position(index.value, |l.elems|).value;
      var after := ExecLSet(ks, args).ks;
      ExecOne(after, ["LSET", args[0], args[1], l.elems[i]]);
      ExecLSet1(after, args[0], args[1], l.elems[i]);
      assert l.elems[i := args[2]][i := l.elems[i]] == l.elems;
    }
  }

  /** RPOPLPUSH fails, and its undo must not be executed, when the destination is no list. */
  predicate WrongDestination(ks: Keyspace, args: seq<Bytes>)
    requires |args| == 2
  {
    GetAsList(ks, args[0]).AList? && GetAsList(ks, args[1]).NotAList?
  }

  lemma UndoMove(ks: Keyspace, source: Bytes, dest: Bytes)
    requires ListsNonEmpty(ks) && source != dest && GetAsList(ks, source).AList? && !GetAsList(ks, dest).NotAList?
    ensures var elems := ks[source].elems;
            var val := elems[|elems| - 1];
            var e := ExecRPopLPush(ks, [source, dest]);
            ExecPop(ExecPush(e.ks, [source, val], false, false).ks, [dest], true).ks == ks
  {
    hide WrongType;
    var elems := ks[source].elems;
    var val, rest := elems[|elems| - 1], elems[..|elems| - 1];
    var target := if dest in ks then ks[dest].elems else [];
    var mid := ks[dest := List([val] + target)];
    PushBack(mid, source, rest, val, false);
    assert rest + [val] == elems && mid[source := List(elems)] == mid;
    assert mid == PutOrDrop(ks, dest, [val] + target);
    PopPut(ks, dest, [val] + target, true);
    assert ([val] + target)[1..] == target;
    PutBack(ks, dest);
  }

  lemma UndoRotate(ks: Keyspace, key: Bytes)
    requires ListsNonEmpty(ks) && GetAsList(ks, key).AList?
    ensures var elems := ks[key].elems;
            var val := elems[|elems| - 1];
            var e := ExecRPopLPush(ks, [key, key]);
            ExecPop(ExecPush(e.ks, [key, val], false, false).ks, [key], true).ks == ks
  {
    hide WrongType;
    var elems := ks[key].elems;
    var val, rest := elems[|elems| - 1], elems[..|elems| - 1];
    PushBack(ks, key, [val] + rest, val, false);
    assert [val] + rest + [val] == [val] + elems && ([val] + elems)[1..] == elems;
    PopPut(ks, key, [val] + elems, true);
    PutBack(ks, key);
  }

  lemma UndoRPopLPushRestoresIff(ks: Keyspace, args: seq<Bytes>)
    requires ListsNonEmpty(ks) && |args| == 2
    ensures ExecAll(ExecRPopLPush(ks, args).ks, UndoRPopLPush(ks, args)) == ks <==> !WrongDestination(ks, args)
  {
    hide Exec, WrongType, ExecPush, ExecPop;
    var source, dest := args[0], args[1];
    var l := GetAsList(ks, source);
    assert args == [source, dest];
    if l.AList? {
      var val := l.elems[|l.elems| - 1];
      var after := ExecRPopLPush(ks, args).ks;
      var pushed := ExecPush(after, [source, val], false, false).ks;
      ExecTwo(after, ["RPUSH", source, val], ["LPOP", dest]);
      ExecPush1(after, source, val);
      ExecPop1(pushed, dest);
      if WrongDestination(ks, args) {
        PushGrows(ks, source, dest, val);
      } else if source == dest {
        UndoRotate(ks, source);
      } else {
        UndoMove(ks, source, dest);
      }
    }
  }

  lemma PushGrows(ks: Keyspace, source: Bytes, dest: Bytes, val: Bytes)
    requires GetAsList(ks, source).AList? && GetAsList(ks, dest).NotAList?
    ensures ExecPop(ExecPush(ks, [source, val], false, false).ks, [dest], true).ks != ks
  {
    assert [source, val][1..] == [val];
    assert |ks[source].elems + [val]| != |ks[source].elems|;
  }

  /** The undo commands of a refused RPOPLPUSH push the last element a second time. */
  lemma RefusedMoveDuplicates(ks: Keyspace, args: seq<Bytes>)
    requires |args| == 2 && WrongDestination(ks, args)
    ensures var elems := ks[args[0]].elems;
            elems != [] ==> ExecAll(ExecRPopLPush(ks, args).ks, UndoRPopLPush(ks, args))
                            == ks[args[0] := List(elems + [elems[|elems| - 1]])]
  {
    hide Exec, WrongType, ExecPush, ExecPop;
    var source, dest, elems := args[0], args[1], ks[args[0]].elems;
    assert args == [source, dest];
    if elems != [] {
      var val := elems[|elems| - 1];
      ExecTwo(ks, ["RPUSH", source, val], ["LPOP", dest]);
      ExecPush1(ks, source, val);
      ExecPop1(ExecPush(ks, [source, val], false, false).ks, dest);
      PushesOnly(ks, source, dest, val);
    }
  }

  lemma PushesOnly(ks: Keyspace, source: Bytes, dest: Bytes, val: Bytes)
    requires GetAsList(ks, source).AList? && GetAsList(ks, dest).NotAList?
    ensures ExecPop(ExecPush(ks, [source, val], false, false).ks, [dest], true).ks
            == ks[source := List(ks[source].elems + [val])]
  {
    hide WrongType;
    assert [source, val][1..] == [val] && [val][1..] == [];
  }

  /** A list of one element and a string: RPOPLPUSH is refused, and undoing it leaves two elements. */
  lemma RefusedMoveIsNotUndone(source: Bytes, dest: Bytes, x: Bytes, s: Bytes)
    requires source != dest
    ensures var ks: Keyspace := map[source := List([x]), dest := Str(Some(s))];
            ExecAll(RunList(CRPopLPush, ks, [source, dest]).ks, UndoOf(CRPopLPush, ks, [source, dest]))
            == ks[source := List([x, x])]
  {
    hide ExecAll, ExecRPopLPush, UndoRPopLPush;
    RefusedMoveDuplicates(map[source := List([x]), dest := Str(Some(s))], [source, dest]);
    assert [x] + [x] == [x, x];
  }

  /** A command, and then its undo commands computed before it ran, restore the keyspace
      exactly, unless the command is an RPOPLPUSH of a list to a key that holds no list. */
  lemma UndoRestoresIff(c: ListCommand, ks: Keyspace, args: seq<Bytes>)
    requires HasUndo(c) && Callable(OnList(c), args) && ListsNonEmpty(ks)
    ensures ExecAll(RunList(c, ks, args).ks, UndoOf(c, ks, args)) == ks <==>
            !(c == CRPopLPush && WrongDestination(ks, args))
  {
    hide ExecAll, ExecPush, ExecPop, ExecLSet, ExecRPopLPush, UndoPush, UndoLPop, UndoRPop, UndoLSet, UndoRPopLPush,
      WrongDestination;
    match c
    case CLPush => UndoPushRestores(ks, args, true);
    case CRPush => UndoPushRestores(ks, args, false);
    case CLPop => UndoPopRestores(ks, args, true);
    case CRPop => UndoPopRestores(ks, args, false);
    case CLSet => UndoLSetRestores(ks, args);
    case CRPopLPush => UndoRPopLPushRestoresIff(ks, args);
  }

  // ---- whole transactions

  datatype Call = Call(c: ListCommand, args: seq<Bytes>)

  predicate CanUndo(ks: Keyspace, call: Call) {
    && HasUndo(call.c) && Callable(OnList(call.c), call.args)
    && !(call.c == CRPopLPush && WrongDestination(ks, call.args))
  }

  /** Executes calls in order; the undo commands of later calls come first. */
  function Transact(ks: Keyspace, calls: seq<Call>): Option<(Keyspace, seq<CmdLine>)>
    decreases |calls|
  {
    if calls == [] then Some((ks, []))
    else if !CanUndo(ks, calls[0]) then None
    else
      var e := RunList(calls[0].c, ks, calls[0].args);
      match Transact(e.ks, calls[1..])
      case None => None
      case Some(r) => Some((r.0, r.1 + UndoOf(calls[0].c, ks, calls[0].args)))
  }

  lemma {:induction false} ExecAllConcat(ks: Keyspace, a: seq<CmdLine>, b: seq<CmdLine>)
    ensures ExecAll(ks, a + b) == ExecAll(ExecAll(ks, a), b)
    decreases |a|
  {
    hide Exec;
    if a == [] {
      assert a + b == b;
    } else {
      assert (a + b)[1..] == a[1..] + b;
      ExecAllConcat(Exec(ks, a[0]).0.ks, a[1..], b);
    }
  }

  /** Every call, on the keyspace that it meets, is one of the six commands with enough arguments, and no
      RPOPLPUSH of a list to a key that holds something else. */
  ghost predicate AllUndoable(ks: Keyspace, calls: seq<Call>)
    decreases |calls|
  {
    calls == [] ||
    (var c, args := calls[0].c, calls[0].args;
     && c in {CLPush, CRPush, CLPop, CRPop, CLSet, CRPopLPush} && Callable(OnList(c), args)
     && !(c == CRPopLPush && args[0] in ks && ks[args[0]].List? && args[1] in ks && !ks[args[1]].List?)
     && AllUndoable(RunList(c, ks, args).ks, calls[1..]))
  }

  /** A transaction is carried out exactly if its calls are such. */
  lemma {:induction false} TransactIff(ks: Keyspace, calls: seq<Call>)
    ensures Transact(ks, calls).Some? <==> AllUndoable(ks, calls)
    decreases |calls|
  {
    hide RunList, UndoOf;
    if calls != [] && CanUndo(ks, calls[0]) {
      TransactIff(RunList(calls[0].c, ks, calls[0].args).ks, calls[1..]);
    }
  }

  /** Rolling back any number of list commands restores the keyspace they started from. */
  lemma {:induction false} RollbackRestores(ks: Keyspace, calls: seq<Call>)
    requires ListsNonEmpty(ks)
    ensures var r := Transact(ks, calls); r.Some? ==> ExecAll(r.value.0, r.value.1) == ks
    decreases |calls|
  {
    hide ExecAll, RunList, UndoOf, WrongDestination;
    if calls == [] {
      NothingExecuted(ks);
    } else if CanUndo(ks, calls[0]) {
      var call := calls[0];
      var e := RunList(call.c, ks, call.args);
      ListsOwe(call.c, ks, call.args);
      RollbackRestores(e.ks, calls[1..]);
      var r := Transact(e.ks, calls[1..]);
      if r.Some? {
        ExecAllConcat(r.value.0, r.value.1, UndoOf(call.c, ks, call.args));
        UndoRestoresIff(call.c, ks, call.args);
      }
    }
  }

  lemma NothingExecuted(ks: Keyspace)
    ensures ExecAll(ks, []) == ks
  {
  }
}
