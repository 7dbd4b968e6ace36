/** What the append-only log records: every logged line replays its command, and what is not
    logged did not change the keyspace, with the exact exceptions. */
module LogCompleteness {
  import opened Bytes
  import opened Reply
  import opened Sequences
  import opened Commands
  import opened SetAlgebra

  /** No stored list is empty. */
  ghost predicate ListsNonEmpty(ks: Keyspace) {
    forall k :: k in ks && ks[k].List? ==> ks[k].elems != []
  }

  /** No stored set is empty. */
  ghost predicate SetsNonEmpty(ks: Keyspace) {
    forall k :: k in ks && ks[k].Set? ==> ks[k].members != {}
  }

  ghost predicate Sound(ks: Keyspace) {
    ListsNonEmpty(ks) && SetsNonEmpty(ks)
  }

  lemma PingFinds()
    ensures Lookup("ping") == Some(CPing)
  {
  }

  lemma StringNameFinds(c: StringCommand)
    ensures Lookup(StringName(c)) == Some(OnString(c))
  {
    var n := StringName(c);
    assert n[0] == n[0] && n[1] == n[1] && n[2] == n[2];
  }

  lemma KeyNameFinds(c: KeyCommand)
    ensures Lookup(KeyName(c)) == Some(OnKeys(c))
  {
    var n := KeyName(c);
    assert n[0] == n[0] && n[1] == n[1] && n[2] == n[2];
  }

  lemma ListNameFinds(c: ListCommand)
    ensures Lookup(ListName(c)) == Some(OnList(c))
  {
    var n := ListName(c);
    assert n[0] == n[0] && n[1] == n[1] && n[2] == n[2];
  }

  lemma SetNameFinds(c: SetCommand)
    ensures Lookup(SetName(c)) == Some(OnSet(c))
  {
    var n := SetName(c);
    assert n[0] == n[0] && n[1] == n[1] && n[2] == n[2];
  }

  predicate NoCapitals(s: Bytes) {
    forall i :: 0 <= i < |s| ==> Lower(s[i]) == s[i]
  }

  lemma NamesHaveNoCapitals(s: StringCommand, k: KeyCommand)
    ensures NoCapitals(StringName(s)) && NoCapitals(KeyName(k))
  {
  }

  lemma MoreNamesHaveNoCapitals(l: ListCommand, m: SetCommand)
    ensures NoCapitals(ListName(l)) && NoCapitals(SetName(m))
  {
  }

  lemma LowerLogName(c: Command)
    ensures ToLower(LogName(c)) == Name(c)
  {
    hide ToLower, StringName, KeyName, ListName, SetName;
    match c
    case CPing =>
    case OnString(s) =>
      NamesHaveNoCapitals(s, CDel);
      if s == CSetRange {
        LowerSetRange();
      }
    case OnKeys(k) => NamesHaveNoCapitals(CSet, k);
    case OnList(l) => MoreNamesHaveNoCapitals(l, CSAdd);
    case OnSet(m) => MoreNamesHaveNoCapitals(CLPush, m);
  }

  lemma LowerSetRange()
    ensures ToLower("setRange") == StringName(CSetRange)
  {
    assert "setRange"[3..] == "Range";
  }

  /** The name a command logs is looked up as the same command. */
  lemma LogNameFinds(c: Command)
    ensures Lookup(ToLower(LogName(c))) == Some(c)
  {
    hide Lookup, ToLower, StringName, KeyName, ListName, SetName, LogName;
    LowerLogName(c);
    match c
    case CPing => PingFinds();
    case OnString(s) => StringNameFinds(s);
    case OnKeys(k) => KeyNameFinds(k);
    case OnList(l) => ListNameFinds(l);
    case OnSet(m) => SetNameFinds(m);
  }

  // ---- what every command keeps

  lemma {:induction false} PutPairsKeeps(ks: Keyspace, args: seq<Bytes>)
    requires |args| % 2 == 0
    ensures ListsNonEmpty(ks) ==> ListsNonEmpty(PutPairs(ks, args))
    ensures SetsNonEmpty(ks) ==> SetsNonEmpty(PutPairs(ks, args))
    decreases |args|
  {
    if args != [] {
      PutPairsKeeps(PutString(ks, args[0], args[1]), args[2..]);
    }
  }

  lemma {:induction false} RemovesKeeps(ks: Keyspace, keys: seq<Bytes>)
    ensures ListsNonEmpty(ks) ==> ListsNonEmpty(Removes(ks, keys).0)
    ensures SetsNonEmpty(ks) ==> SetsNonEmpty(Removes(ks, keys).0)
  {
    if keys != [] {
      RemovesKeeps(ks - {keys[0]}, keys[1..]);
    }
  }

  /** What a command owes: lists stay non-empty and then an unlogged change happens exactly when
      `loses` holds; if sets are non-empty too, they stay so exactly unless `empties` holds. */
  ghost predicate Accounts(ks: Keyspace, e: Effect, loses: bool, empties: bool) {
    && (ListsNonEmpty(ks) ==> ListsNonEmpty(e.ks) && (!e.logged && e.ks != ks <==> loses))
    && (Sound(ks) ==> (SetsNonEmpty(e.ks) <==> !empties))
  }

  ghost predicate Owes(ks: Keyspace, e: Effect, loses: bool) {
    Accounts(ks, e, loses, false)
  }

  /** At most one string is written, and it is logged. */
  ghost predicate OneString(ks: Keyspace, key: Bytes, e: Effect) {
    e.ks == ks || (e.logged && exists s :: e.ks == ks[key := Str(s)])
  }

  lemma OneStringOwes(ks: Keyspace, key: Bytes, e: Effect)
    requires OneString(ks, key, e)
    ensures Owes(ks, e, false)
  {
  }

  lemma StringWrites(ks: Keyspace, args: seq<Bytes>)
    ensures |args| >= 2 ==> OneString(ks, args[0], ExecSet(ks, args))
    ensures |args| == 2 ==> OneString(ks, args[0], ExecSetNx(ks, args))
    ensures |args| == 2 ==> OneString(ks, args[0], ExecAppend(ks, args))
    ensures |args| == 3 ==> OneString(ks, args[0], ExecSetRange(ks, args))
  {
    hide SetPolicy, Appended, Overwritten, Overlong, GetAsString, ParseInt, WrongType;
  }

  lemma IntegerWrites(ks: Keyspace, args: seq<Bytes>)
    ensures |args| == 1 ==> OneString(ks, args[0], ExecIncr(ks, args))
    ensures |args| == 1 ==> OneString(ks, args[0], ExecDecr(ks, args))
    ensures |args| == 2 ==> OneString(ks, args[0], ExecIncrBy(ks, args))
    ensures |args| == 2 ==> OneString(ks, args[0], ExecDecrBy(ks, args))
  {
    hide GetAsString, ParseInt, FormatInt, WrongType, NotInteger;
  }

  lemma PairWrites(ks: Keyspace, args: seq<Bytes>)
    ensures Owes(ks, ExecMSet(ks, args), false) && Owes(ks, ExecMSetNx(ks, args), false)
  {
    hide PutPairs;
    if |args| % 2 == 0 {
      PutPairsKeeps(ks, args);
    }
  }

  /** GETSET changes the keyspace without logging exactly when there was no string. */
  lemma GetSetOwes(ks: Keyspace, args: seq<Bytes>)
    requires |args| == 2
    ensures Owes(ks, ExecGetSet(ks, args), GetAsString(ks, args[0]).Missing?)
  {
    hide WrongType;
  }

  lemma KeyWrites(ks: Keyspace, args: seq<Bytes>)
    ensures Owes(ks, ExecDel(ks, args), false) && Owes(ks, ExecFlushDB(ks, args), false)
    ensures |args| == 2 ==> Owes(ks, ExecRename(ks, args), false) && Owes(ks, ExecRenameNx(ks, args), false)
  {
    RemovesKeeps(ks, args);
  }

  lemma Pushes(ks: Keyspace, args: seq<Bytes>, front: bool, mustExist: bool)
    requires |args| >= 2
    ensures Owes(ks, ExecPush(ks, args, front, mustExist), false)
  {
    hide WrongType, Reverse;
  }

  lemma Pops(ks: Keyspace, args: seq<Bytes>, front: bool)
    requires |args| == 1
    ensures Owes(ks, ExecPop(ks, args, front), false)
  {
    hide WrongType;
  }

  lemma RPopLPushes(ks: Keyspace, args: seq<Bytes>)
    requires |args| == 2
    ensures Owes(ks, ExecRPopLPush(ks, args), false)
  {
    hide WrongType;
  }

  lemma {:induction false} DropShortens(s: seq<Bytes>, v: Bytes, n: nat)
    ensures |DropFirst(s, v, n)| <= |s| && (|DropFirst(s, v, n)| == |s| ==> DropFirst(s, v, n) == s)
    ensures |DropLast(s, v, n)| <= |s| && (|DropLast(s, v, n)| == |s| ==> DropLast(s, v, n) == s)
    ensures |Without(s, v)| == |s| ==> Without(s, v) == s
  {
    if s != [] {
      var front := s[..|s| - 1];
      assert s == front + [s[|s| - 1]];
      DropShortens(front, v, n);
      if n > 0 {
        DropShortens(front, v, n - 1);
      }
    }
  }

  lemma RemovedShortens(elems: seq<Bytes>, value: Bytes, count: int)
    ensures var r := Removed(elems, value, count); |r| <= |elems| && (|r| == |elems| ==> r == elems)
  {
    hide DropFirst, DropLast, Without;
    DropShortens(elems, value, if count > 0 then count else 0);
    DropShortens(elems, value, if Wrap64(-count) > 0 then Wrap64(-count) else 0);
  }

  lemma ListWrites(ks: Keyspace, args: seq<Bytes>)
    requires |args| == 3
    ensures Owes(ks, ExecLRem(ks, args), false) && Owes(ks, ExecLSet(ks, args), false)
  {
    hide WrongType, NotInteger, Removed, ParseInt;
    var l, count := GetAsList(ks, args[0]), ParseInt(args[1]);
    if l.AList? && count.Some? {
      RemovedShortens(l.elems, args[2], count.value);
    }
  }

  lemma SAdds(ks: Keyspace, args: seq<Bytes>)
    requires |args| >= 2
    ensures Owes(ks, ExecSAdd(ks, args), false)
  {
    hide WrongType;
    assert args[1] in args[1..] && args[1] in SetOf(args[1..]);
  }

  /** SREM of an empty set, which SPOP can leave, removes the key without logging. */
  lemma SRems(ks: Keyspace, args: seq<Bytes>)
    requires |args| >= 2
    ensures Owes(ks, ExecSRem(ks, args), GetAsSet(ks, args[0]) == ASet({}))
  {
    hide WrongType, SetOf;
    var s := GetAsSet(ks, args[0]);
    if s.ASet? {
      ShrinkIff(s.members, SetOf(args[1..]));
    }
  }

  lemma ShrinkIff(a: set<Bytes>, b: set<Bytes>)
    ensures |a - b| <= |a| && (|a - b| == |a| ==> a - b == a)
  {
    assert a == (a - b) + (a * b);
  }

  lemma {:induction false} ScanNonEmpty(ks: Keyspace, keys: seq<Bytes>, op: Algebra, first: bool,
                                        acc: Option<set<Bytes>>)
    requires SetsNonEmpty(ks) && (acc.Some? ==> acc.value != {})
    ensures var r := ScanKeys(ks, keys, op, first, acc); r.Result? ==> r.members != {}
  {
    if keys != [] {
      match GetAsSet(ks, keys[0])
      case ASet(s) =>
        if acc == None {
          ScanNonEmpty(ks, keys[1..], op, false, Some(s));
        } else {
          var next := match op case Inter => acc.value * s case Union => acc.value + s case Diff => acc.value - s;
          if next != {} {
            ScanNonEmpty(ks, keys[1..], op, false, Some(next));
          }
        }
      case NoSet => ScanNonEmpty(ks, keys[1..], op, false, acc);
      case NotASet =>
    }
  }

  /** A storing set command changes the keyspace without logging exactly when there is nothing to
      store and the destination exists. */
  lemma StoreOwes(ks: Keyspace, args: seq<Bytes>, op: Algebra)
    requires |args| >= 2
    ensures Owes(ks, ExecStore(ks, args, op), args[0] in ks && NothingToStore(ks, args[1..], op))
  {
    hide WrongType, ScanKeys, NothingToStore;
    StoresNothingIff(ks, args[1..], op);
    if SetsNonEmpty(ks) {
      ScanNonEmpty(ks, args[1..], op, true, None);
    }
    if args[0] !in ks {
      assert ks - {args[0]} == ks;
    }
  }

  // ---- SPOP

  lemma {:induction false} SampleSize(members: set<Bytes>, draw: seq<Bytes>)
    requires Fits(Sample(members, |draw|), draw)
    ensures SetOf(draw) <= members && |SetOf(draw)| == |draw|
    decreases draw
  {
    if draw != [] {
      var front, last := draw[..|draw| - 1], draw[|draw| - 1];
      SampleSize(members, front);
      assert draw == front + [last];
      assert SetOf(draw) == SetOf(front) + {last};
    }
  }

  lemma SubsetOfSize(a: set<Bytes>, b: set<Bytes>)
    requires a <= b && |a| == |b|
    ensures a == b
  {
    assert b == a + (b - a);
  }

  /** A sample takes everything exactly if it is as large as the set. */
  lemma TakesAllIff(members: set<Bytes>, draw: seq<Bytes>)
    requires Fits(Sample(members, |draw|), draw)
    ensures members - SetOf(draw) == {} <==> |draw| == |members|
    ensures |draw| == |members| ==> SetOf(draw) == members
  {
    SampleSize(members, draw);
    var drawn := SetOf(draw);
    assert members == drawn + (members - drawn);
    if |draw| == |members| {
      SubsetOfSize(drawn, members);
      assert members - drawn == {};
    }
  }

  /** SPOP leaves an emptied set behind exactly if it takes the last members. */
  predicate Empties(c: Command, ks: Keyspace, args: seq<Bytes>)
    requires Callable(c, args)
  {
    match c
    case OnSet(CSPop) =>
      var d := SetDraws(CSPop, ks, args);
      d.Sample? && d.n == |d.members|
    case _ => false
  }

  lemma SPops(ks: Keyspace, args: seq<Bytes>, draw: seq<Bytes>)
    requires |args| >= 1 && Fits(SetDraws(CSPop, ks, args), draw)
    ensures Accounts(ks, ExecSPop(ks, args, draw), false, Empties(OnSet(CSPop), ks, args))
  {
    hide WrongType, PopCount, SetOf;
    var d := SetDraws(CSPop, ks, args);
    if d.Sample? {
      TakesAllIff(d.members, draw);
      var after := ExecSPop(ks, args, draw).ks;
      assert args[0] in after && after[args[0]] == Set(d.members - SetOf(draw));
      if draw == [] {
        assert SetOf([]) == {} by { NothingDrawn(); }
        assert d.members - {} == d.members;
        assert ks[args[0] := Set(d.members)] == ks;
      }
    }
  }

  lemma NothingDrawn()
    ensures SetOf([]) == {}
  {
  }

  predicate Callable(c: Command, args: seq<Bytes>) {
    ValidateArity(Arity(c), 1 + |args|)
  }

  /** The calls that change the keyspace without leaving a line in the log. */
  ghost predicate Loses(c: Command, ks: Keyspace, args: seq<Bytes>)
    requires Callable(c, args)
  {
    match c
    case OnString(CGetSet) => GetAsString(ks, args[0]).Missing?
    case OnSet(CSRem) => GetAsSet(ks, args[0]) == ASet({})
    case OnSet(CSInterStore) => args[0] in ks && NothingToStore(ks, args[1..], Inter)
    case OnSet(CSUnionStore) => args[0] in ks && NothingToStore(ks, args[1..], Union)
    case OnSet(CSDiffStore) => args[0] in ks && NothingToStore(ks, args[1..], Diff)
    case _ => false
  }

  lemma ReadOwes(ks: Keyspace, e: Effect)
    requires e.ks == ks
    ensures Owes(ks, e, false)
  {
  }

  lemma StringsOwe(c: StringCommand, ks: Keyspace, args: seq<Bytes>)
    requires Callable(OnString(c), args)
    ensures Owes(ks, RunString(c, ks, args), Loses(OnString(c), ks, args))
  {
    hide Owes, OneString, ExecSet, ExecSetNx, ExecIncr, ExecIncrBy, ExecDecr, ExecDecrBy, ExecAppend, ExecSetRange,
      ExecMSet, ExecMSetNx, ExecGetSet, GetAsString, ParseInt, WrongType;
    match c
    case CSet | CSetNx | CAppend | CSetRange =>
      StringWrites(ks, args);
      OneStringOwes(ks, args[0], RunString(c, ks, args));
    case CIncr | CDecr | CIncrBy | CDecrBy =>
      IntegerWrites(ks, args);
      OneStringOwes(ks, args[0], RunString(c, ks, args));
    case CMSet | CMSetNx => PairWrites(ks, args);
    case CGetSet => GetSetOwes(ks, args);
    case _ => ReadOwes(ks, RunString(c, ks, args));
  }

  lemma KeysOwe(c: KeyCommand, ks: Keyspace, args: seq<Bytes>)
    requires Callable(OnKeys(c), args)
    ensures Owes(ks, RunKey(c, ks, args), false)
  {
    hide Owes, ExecDel, ExecFlushDB, ExecRename, ExecRenameNx;
    match c
    case CExists | CKeys | CType => ReadOwes(ks, RunKey(c, ks, args));
    case _ => KeyWrites(ks, args);
  }

  lemma ListsOwe(c: ListCommand, ks: Keyspace, args: seq<Bytes>)
    requires Callable(OnList(c), args)
    ensures Owes(ks, RunList(c, ks, args), false)
  {
    hide Owes, ExecPush, ExecPop, ExecRPopLPush, ExecLRem, ExecLSet, GetAsList, ParseInt, WrongType, NotInteger,
      RangeBounds, Position;
    match c
    case CLPush => Pushes(ks, args, true, false);
    case CLPushX => Pushes(ks, args, true, true);
    case CRPush => Pushes(ks, args, false, false);
    case CRPushX => Pushes(ks, args, false, true);
    case CLPop => Pops(ks, args, true);
    case CRPop => Pops(ks, args, false);
    case CRPopLPush => RPopLPushes(ks, args);
    case CLRem | CLSet => ListWrites(ks, args);
    case _ => ReadOwes(ks, RunList(c, ks, args));
  }

  lemma SetsOwe(c: SetCommand, ks: Keyspace, args: seq<Bytes>, draw: seq<Bytes>)
    requires Callable(OnSet(c), args) && Fits(SetDraws(c, ks, args), draw)
    ensures Accounts(ks, RunSet(c, ks, args, draw), Loses(OnSet(c), ks, args), Empties(OnSet(c), ks, args))
  {
    hide Accounts, ExecSAdd, ExecSRem, ExecStore, ExecSPop, NothingToStore, GetAsSet, WrongType, ScanKeys, SetDraws;
    match c
    case CSAdd => SAdds(ks, args);
    case CSRem => SRems(ks, args);
    case CSInterStore => StoreOwes(ks, args, Inter);
    case CSUnionStore => StoreOwes(ks, args, Union);
    case CSDiffStore => StoreOwes(ks, args, Diff);
    case CSPop => SPops(ks, args, draw);
    case _ => ReadOwes(ks, RunSet(c, ks, args, draw));
  }

  /** Every command, whatever it draws: lists stay non-empty; when sets are non-empty too, they
      stay so unless SPOP takes the last members; and the log misses a change exactly in the
      calls that Loses names. */
  lemma RunOwes(c: Command, ks: Keyspace, args: seq<Bytes>, draw: seq<Bytes>)
    requires Callable(c, args) && Fits(DrawsOf(c, ks, args), draw)
    ensures Accounts(ks, Run(c, ks, args, draw), Loses(c, ks, args), Empties(c, ks, args))
  {
    hide Accounts, RunString, RunKey, RunList, RunSet, NothingToStore, GetAsString, SetDraws;
    match c
    case CPing => ReadOwes(ks, Run(c, ks, args, draw));
    case OnString(s) => StringsOwe(s, ks, args);
    case OnKeys(k) => KeysOwe(k, ks, args);
    case OnList(l) => ListsOwe(l, ks, args);
    case OnSet(m) => SetsOwe(m, ks, args, draw);
  }

  /** SPOP of some of the members, but not all: what its log line takes again is open. */
  predicate Gambles(c: Command, ks: Keyspace, args: seq<Bytes>)
    requires Callable(c, args)
  {
    match c
    case OnSet(CSPop) =>
      var d := SetDraws(CSPop, ks, args);
      d.Sample? && 0 < d.n < |d.members|
    case _ => false
  }

  /** A command line whose change, if any, can be read off the log. */
  ghost predicate Keepable(ks: Keyspace, line: CmdLine) {
    var c := Lookup(ToLower(line[0]));
    c.Some? && Callable(c.value, line[1..]) ==> !Loses(c.value, ks, line[1..]) && !Gambles(c.value, ks, line[1..])
  }

  /** The log tells what the line has done: nothing if nothing is logged, and otherwise whatever
      executing the logged line draws, it does the same. */
  ghost predicate Recoverable(ks: Keyspace, line: CmdLine, draw: seq<Bytes>) {
    var r := ExecBy(ks, line, draw);
    if r.1 == [] then r.0.ks == ks
    else forall again :: Possible(ks, r.1[0], again) ==> ExecBy(ks, r.1[0], again).0.ks == r.0.ks
  }

  /** Only a gamble depends on what it draws. */
  lemma DrawIrrelevant(c: Command, ks: Keyspace, args: seq<Bytes>, a: seq<Bytes>, b: seq<Bytes>)
    requires Callable(c, args) && !Gambles(c, ks, args) && Fits(DrawsOf(c, ks, args), a) &&
             Fits(DrawsOf(c, ks, args), b)
    ensures Run(c, ks, args, a).ks == Run(c, ks, args, b).ks && Run(c, ks, args, a).logged == Run(c, ks, args, b).logged
  {
    hide RunString, RunKey, RunList, ExecSAdd, ExecSRem, ExecStore, ExecAlgebra, SetOf, WrongType, PopCount, ParseInt;
    if c == OnSet(CSPop) {
      var d := SetDraws(CSPop, ks, args);
      if d.Sample? {
        TakesAllIff(d.members, a);
        TakesAllIff(d.members, b);
        assert d.n == 0 ==> a == b;
      }
    }
  }

  /** A gamble can come out differently. */
  lemma OtherDraw(c: Command, ks: Keyspace, args: seq<Bytes>, draw: seq<Bytes>) returns (again: seq<Bytes>)
    requires Callable(c, args) && Gambles(c, ks, args) && Fits(DrawsOf(c, ks, args), draw)
    ensures Fits(DrawsOf(c, ks, args), again) && Run(c, ks, args, again).ks != Run(c, ks, args, draw).ks
    ensures Run(c, ks, args, draw).logged
  {
    hide WrongType, PopCount, SetOf;
    var d := SetDraws(CSPop, ks, args);
    TakesAllIff(d.members, draw);
    var x :| x in d.members - SetOf(draw);
    again := [x] + draw[1..];
    Redrawn(d.members, draw, x);
    assert Run(c, ks, args, draw).ks[args[0]] == Set(d.members - SetOf(draw));
    assert Run(c, ks, args, again).ks[args[0]] == Set(d.members - SetOf(again));
  }

  lemma Redrawn(members: set<Bytes>, draw: seq<Bytes>, x: Bytes)
    requires draw != [] && Fits(Sample(members, |draw|), draw) && x in members - SetOf(draw)
    ensures Fits(Sample(members, |draw|), [x] + draw[1..]) && x in SetOf([x] + draw[1..])
  {
    var again := [x] + draw[1..];
    assert again[0] == x;
    assert forall i :: 1 <= i < |draw| ==> again[i] == draw[i] && draw[i] in SetOf(draw);
  }

  /** The logged line draws from the same set as the command. */
  lemma LoggedDraws(ks: Keyspace, c: Command, args: seq<Bytes>)
    requires Callable(c, args)
    ensures var logged := [LogName(c)] + args;
            && LineDraws(ks, logged) == DrawsOf(c, ks, args)
            && forall draw :: ExecBy(ks, logged, draw).0 == Run(c, ks, args, draw)
  {
    hide Run, Lookup, ToLower, LogName, Arity, DrawsOf;
    LogNameFinds(c);
    var logged := [LogName(c)] + args;
    assert logged[1..] == args;
  }

  /** Exactly the keepable lines can be recovered from the log, whatever they have drawn. */
  lemma RecoverableIff(ks: Keyspace, line: CmdLine, draw: seq<Bytes>)
    requires ListsNonEmpty(ks) && Possible(ks, line, draw)
    ensures Recoverable(ks, line, draw) <==> Keepable(ks, line)
  {
    hide Run, Lookup, ToLower, LogName, Arity, Loses, Gambles, DrawsOf, ListsNonEmpty, SetsNonEmpty;
    var c := Lookup(ToLower(line[0]));
    if c.Some? && Callable(c.value, line[1..]) {
      var args := line[1..];
      RunOwes(c.value, ks, args, draw);
      LoggedDraws(ks, c.value, args);
      if Gambles(c.value, ks, args) {
        var again := OtherDraw(c.value, ks, args, draw);
        assert Possible(ks, [LogName(c.value)] + args, again);
      } else {
        forall again | Fits(DrawsOf(c.value, ks, args), again)
          ensures Run(c.value, ks, args, again).ks == Run(c.value, ks, args, draw).ks
        {
          DrawIrrelevant(c.value, ks, args, again, draw);
        }
        SomeDraw(ks, c.value, args, draw);
      }
    }
  }

  lemma SomeDraw(ks: Keyspace, c: Command, args: seq<Bytes>, draw: seq<Bytes>)
    requires Callable(c, args) && Fits(DrawsOf(c, ks, args), draw)
    ensures LineDraws(ks, [LogName(c)] + args) == DrawsOf(c, ks, args) ==> Possible(ks, [LogName(c)] + args, draw)
  {
  }

  /** Lists stay non-empty whatever is executed. */
  lemma ExecKeepsLists(ks: Keyspace, line: CmdLine, draw: seq<Bytes>)
    requires ListsNonEmpty(ks) && Possible(ks, line, draw)
    ensures ListsNonEmpty(ExecBy(ks, line, draw).0.ks)
  {
    hide Run, Lookup, ToLower, LogName, Arity, Loses, SetsNonEmpty, DrawsOf;
    var c := Lookup(ToLower(line[0]));
    if c.Some? && Callable(c.value, line[1..]) {
      RunOwes(c.value, ks, line[1..], draw);
    }
  }
}
