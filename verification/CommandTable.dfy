/** The commands as they are registered (the init functions of database/string.go, keys.go, list.go,
    set.go and ping.go), and what holds of every one of them. */
module CommandTable {
  import opened Bytes
  import opened Reply
  import opened Commands
  import opened LogCompleteness

  /** A command is registered under this name, in lower case, with this number of arguments, its name
      included, or at least so many if the number is negative. */
  predicate Registered(name: Bytes, arity: int, c: Command) {
    Lookup(name) == Some(c) && Name(c) == name && Arity(c) == arity
  }

  lemma StringsRegistered()
    ensures Registered("set", -3, OnString(CSet)) && Registered("setnx", 3, OnString(CSetNx))
    ensures Registered("mset", -3, OnString(CMSet)) && Registered("mget", -2, OnString(CMGet))
    ensures Registered("msetnx", -3, OnString(CMSetNx)) && Registered("get", 2, OnString(CGet))
    ensures Registered("getset", 3, OnString(CGetSet)) && Registered("strlen", 2, OnString(CStrLen))
  {
    hide Lookup;
    forall c: StringCommand {
      StringNameFinds(c);
    }
  }

  lemma MoreStringsRegistered()
    ensures Registered("incr", 2, OnString(CIncr))
    ensures Registered("incrby", 3, OnString(CIncrBy)) && Registered("decr", 2, OnString(CDecr))
    ensures Registered("decrby", 3, OnString(CDecrBy))
    ensures Registered("append", 3, OnString(CAppend)) && Registered("setrange", 4, OnString(CSetRange))
    ensures Registered("getrange", 4, OnString(CGetRange))
  {
    hide Lookup;
    forall c: StringCommand {
      StringNameFinds(c);
    }
  }

  lemma KeysRegistered()
    ensures Registered("del", -2, OnKeys(CDel)) && Registered("exists", -2, OnKeys(CExists))
    ensures Registered("keys", 2, OnKeys(CKeys)) && Registered("flushdb", -1, OnKeys(CFlushDB))
    ensures Registered("type", 2, OnKeys(CType)) && Registered("rename", 3, OnKeys(CRename))
    ensures Registered("renamenx", 3, OnKeys(CRenameNx)) && Registered("ping", -1, CPing)
  {
    hide Lookup;
    PingFinds();
    forall c: KeyCommand {
      KeyNameFinds(c);
    }
  }

  lemma ListsRegistered()
    ensures Registered("lpush", -3, OnList(CLPush)) && Registered("lpushx", -3, OnList(CLPushX))
    ensures Registered("rpush", -3, OnList(CRPush)) && Registered("rpushx", -3, OnList(CRPushX))
    ensures Registered("lpop", 2, OnList(CLPop)) && Registered("rpop", 2, OnList(CRPop))
    ensures Registered("rpoplpush", 3, OnList(CRPopLPush)) && Registered("lrem", 4, OnList(CLRem))
    ensures Registered("llen", 2, OnList(CLLen)) && Registered("lindex", 3, OnList(CLIndex))
    ensures Registered("lset", 4, OnList(CLSet)) && Registered("lrange", 4, OnList(CLRange))
  {
    hide Lookup;
    forall c: ListCommand {
      ListNameFinds(c);
    }
  }

  lemma SetsRegistered()
    ensures Registered("sadd", -3, OnSet(CSAdd)) && Registered("sismember", 3, OnSet(CSIsMember))
    ensures Registered("srem", -3, OnSet(CSRem)) && Registered("spop", -2, OnSet(CSPop))
    ensures Registered("scard", 2, OnSet(CSCard)) && Registered("smembers", 2, OnSet(CSMembers))
    ensures Registered("sinter", -2, OnSet(CSInter)) && Registered("sinterstore", -3, OnSet(CSInterStore))
    ensures Registered("sunion", -2, OnSet(CSUnion)) && Registered("sunionstore", -3, OnSet(CSUnionStore))
    ensures Registered("sdiff", -2, OnSet(CSDiff)) && Registered("sdiffstore", -3, OnSet(CSDiffStore))
    ensures Registered("srandmember", -2, OnSet(CSRandMember))
  {
    hide Lookup;
    forall c: SetCommand {
      SetNameFinds(c);
    }
  }

  /** Nothing else is registered: a name that is found is the name of what it finds. */
  lemma LookupIff(name: Bytes, c: Command)
    ensures Lookup(name) == Some(c) <==> name == Name(c)
  {
    if Lookup(name) == Some(c) {
      FoundByName(name, c);
    } else {
      hide Lookup;
      NameFinds(c);
    }
  }

  lemma FoundByName(name: Bytes, c: Command)
    requires Lookup(name) == Some(c)
    ensures name == Name(c)
  {
    hide Name, Lookup3, Lookup4, Lookup5, Lookup6, Lookup7, Lookup8, Lookup9, Lookup10, Lookup11;
    if |name| == 3 {
      Found3(name, c);
    } else if |name| == 4 {
      Found4(name, c);
    } else if |name| == 5 {
      Found5(name, c);
    } else if |name| == 6 {
      Found6(name, c);
    } else {
      FoundLong(name, c);
    }
  }

  lemma Found3(name: Bytes, c: Command)
    requires Lookup3(name) == Some(c)
    ensures name == Name(c)
  {
  }

  lemma Found4(name: Bytes, c: Command)
    requires Lookup4(name) == Some(c)
    ensures name == Name(c)
  {
  }

  lemma Found5(name: Bytes, c: Command)
    requires Lookup5(name) == Some(c)
    ensures name == Name(c)
  {
  }

  lemma Found6(name: Bytes, c: Command)
    requires Lookup6(name) == Some(c)
    ensures name == Name(c)
  {
  }

  lemma FoundLong(name: Bytes, c: Command)
    requires Lookup(name) == Some(c) && |name| >= 7
    ensures name == Name(c)
  {
    hide Lookup3, Lookup4, Lookup5, Lookup6;
  }

  lemma NameFinds(c: Command)
    ensures Lookup(Name(c)) == Some(c)
  {
    hide Lookup;
    match c
    case CPing => PingFinds();
    case OnString(s) => StringNameFinds(s);
    case OnKeys(k) => KeyNameFinds(k);
    case OnList(l) => ListNameFinds(l);
    case OnSet(m) => SetNameFinds(m);
  }

  /** Two names that differ in capitals at most. */
  predicate SameLetters(a: Bytes, b: Bytes) {
    |a| == |b| && forall i :: 0 <= i < |a| ==>
      || a[i] == b[i]
      || ('A' <= a[i] <= 'Z' && b[i] as int == a[i] as int + 32)
      || ('a' <= a[i] <= 'z' && b[i] as int == a[i] as int - 32)
  }

  /** What a line does: capitals in the name make no difference, a wrong number of arguments is refused,
      and otherwise the registered command runs on the arguments and logs itself with them, under the
      name it is registered with but for a capital in that of SETRANGE. */
  lemma LineIff(ks: Keyspace, line: CmdLine, c: Command, draw: seq<Bytes>)
    requires SameLetters(line[0], Name(c))
    ensures if (Arity(c) >= 0 && |line| != Arity(c)) || |line| < -Arity(c)
            then ExecBy(ks, line, draw) == (Unchanged(ks, ArityError(Name(c))), [])
            else
              && Callable(c, line[1..])
              && var e := Run(c, ks, line[1..], draw);
                 var name := if c == OnString(CSetRange) then "setRange" else Name(c);
                 ExecBy(ks, line, draw) == (e, if e.logged then [[name] + line[1..]] else [])
  {
    hide Lookup, Name, Arity, Run, ArityError, ToLower;
    LowerSame(line[0], c);
    NameFinds(c);
  }

  lemma LowerSame(text: Bytes, c: Command)
    requires SameLetters(text, Name(c))
    ensures ToLower(text) == Name(c)
  {
    hide Name;
    NameIsLower(c);
    var name := Name(c);
    assert forall i :: 0 <= i < |name| ==> !('A' <= name[i] <= 'Z');
    assert forall i :: 0 <= i < |name| ==> ToLower(text)[i] == name[i];
  }

  lemma NameIsLower(c: Command)
    ensures NoCapitals(Name(c))
  {
    hide NoCapitals, StringName, KeyName, ListName, SetName;
    match c
    case CPing => PingIsLower();
    case OnString(s) => NamesHaveNoCapitals(s, CDel);
    case OnKeys(k) => NamesHaveNoCapitals(CSet, k);
    case OnList(l) => MoreNamesHaveNoCapitals(l, CSAdd);
    case OnSet(m) => MoreNamesHaveNoCapitals(CLPush, m);
  }

  lemma PingIsLower()
    ensures NoCapitals("ping")
  {
  }

  /** Any other name is unknown. */
  lemma UnknownName(ks: Keyspace, line: CmdLine, draw: seq<Bytes>)
    requires forall c :: !SameLetters(line[0], Name(c))
    ensures ExecBy(ks, line, draw) == (Unchanged(ks, Err("ERR unknown command '" + ToLower(line[0]) + "'")), [])
  {
    hide Lookup, Name, ToLower, SameLetters;
    var found := Lookup(ToLower(line[0]));
    if found.Some? {
      FoundByName(ToLower(line[0]), found.value);
      LoweredSame(line[0]);
      assert false;
    }
  }

  lemma LoweredSame(text: Bytes)
    ensures SameLetters(text, ToLower(text))
  {
  }

  ghost predicate Harmless(ks: Keyspace, e: Effect) {
    e.answer.Plain? && e.answer.reply.Err? ==> e.ks == ks && !e.logged
  }

  lemma StringErrors(c: StringCommand, ks: Keyspace, args: seq<Bytes>)
    requires Callable(OnString(c), args)
    ensures Harmless(ks, RunString(c, ks, args))
  {
    hide SetPolicy, PutPairs, GetAsString, Appended, Overwritten, Overlong, ParseInt, FormatInt, Wrap64;
    hide WrongType, NotInteger, SyntaxError, UnknownError;
  }

  lemma KeyErrors(c: KeyCommand, ks: Keyspace, args: seq<Bytes>)
    requires Callable(OnKeys(c), args)
    ensures Harmless(ks, RunKey(c, ks, args))
  {
    hide Removes, CountPresent, NoSuchKey, UnknownError;
  }

  lemma ListErrors(c: ListCommand, ks: Keyspace, args: seq<Bytes>)
    requires Callable(OnList(c), args)
    ensures Harmless(ks, RunList(c, ks, args))
  {
    hide Removed, Position, RangeBounds, GetAsList, ParseInt, PutOrDrop, Present;
    hide WrongType, NotInteger, UnknownError;
  }

  lemma SetErrors(c: SetCommand, ks: Keyspace, args: seq<Bytes>, draw: seq<Bytes>)
    requires Callable(OnSet(c), args)
    ensures Harmless(ks, RunSet(c, ks, args, draw))
  {
    hide ScanKeys, GetAsSet, SetOf, ParseInt, PopCount, Present, AtMost;
    hide WrongType, NotInteger, UnknownError, OutOfRange, ArityError;
  }

  /** A command that answers an error has changed nothing and logs nothing. */
  lemma ErrorsChangeNothing(c: Command, ks: Keyspace, args: seq<Bytes>, draw: seq<Bytes>)
    requires Callable(c, args)
    ensures var e := Run(c, ks, args, draw);
            e.answer.Plain? && e.answer.reply.Err? ==> e.ks == ks && !e.logged
  {
    hide RunString, RunKey, RunList, RunSet, ArityError;
    match c
    case CPing =>
    case OnString(s) => StringErrors(s, ks, args);
    case OnKeys(k) => KeyErrors(k, ks, args);
    case OnList(l) => ListErrors(l, ks, args);
    case OnSet(m) => SetErrors(m, ks, args, draw);
  }

  /** PING answers PONG, or its argument. */
  lemma PingIff(ks: Keyspace, args: seq<Bytes>, draw: seq<Bytes>)
    requires |args| <= 1
    ensures Run(CPing, ks, args, draw) == Unchanged(ks, Status(if args == [] then "PONG" else args[0]))
  {
  }

  /** The texts of the errors that several commands answer. */
  lemma TypeErrorText()
    ensures WrongType().Err? && |WrongType().text| == 65
    ensures WrongType().text[..30] == "WRONGTYPE Operation against a "
    ensures WrongType().text[30..] == "key holding the wrong kind of value"
  {
  }

  lemma IntegerErrorText()
    ensures NotInteger().Err? && NotInteger().text == "ERR value is not an integer or out of range"
  {
  }

  lemma ArityErrorText(name: Bytes)
    ensures ArityError(name).Err?
    ensures ArityError(name).text == "ERR wrong number of arguments for '" + name + "' command"
  {
  }

  lemma ShortErrorTexts()
    ensures SyntaxError() == Err("Err syntax error") && NoSuchKey() == Err("no such key")
    ensures UnknownError() == Err("Err unknown")
    ensures OutOfRange().Err? && OutOfRange().text == "ERR value is out of range, must be positive"
  {
  }
}
