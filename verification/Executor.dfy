/** DB.Exec on a database in memory (database/db.go): name lookup, arity, and the executor. */
module Executor {
  import opened Bytes
  import opened Reply
  import C = Commands
  import LogCompleteness
  import opened Database
  import L = ListCommands
  import S = SetCommands
  import K = KeyCommands
  import T = StringCommands

  method RunList(db: DB, c: C.ListCommand, args: seq<Bytes>) returns (r: Reply)
    requires db.Valid() && C.ValidateArity(C.ListArity(c), 1 + |args|)
    modifies db, db.Repr, db.dict, db.dict.table
    ensures db.Did(C.RunList(c, old(db.View()), args), C.ListName(c), args)
    ensures Answers(r, C.RunList(c, old(db.View()), args).answer)
  {
    hide DB.Owned, DB.View, C.ExecPush, C.ExecPop, C.ExecRPopLPush;
    hide C.ExecLRem, C.ExecLLen, C.ExecLIndex, C.ExecLSet, C.ExecLRange;
    match c
    case CLPush => r := L.ExecPush(db, args, true, "lpush");
    case CLPushX => r := L.ExecPushX(db, args, true, "lpushx");
    case CRPush => r := L.ExecPush(db, args, false, "rpush");
    case CRPushX => r := L.ExecPushX(db, args, false, "rpushx");
    case CLPop => r := L.ExecPop(db, args, true, "lpop");
    case CRPop => r := L.ExecPop(db, args, false, "rpop");
    case CRPopLPush => r := L.ExecRPopLPush(db, args);
    case CLRem => r := L.ExecLRem(db, args);
    case CLLen => r := L.ExecLLen(db, args);
    case CLIndex => r := L.ExecLIndex(db, args);
    case CLSet => r := L.ExecLSet(db, args);
    case CLRange => r := L.ExecLRange(db, args);
  }

  method RunSet(db: DB, c: C.SetCommand, args: seq<Bytes>) returns (r: Reply, ghost draw: seq<Bytes>)
    requires db.Owned() && C.ValidateArity(C.SetArity(c), 1 + |args|)
    modifies db, db.Repr, db.dict, db.dict.table
    ensures C.Fits(C.SetDraws(c, old(db.View()), args), draw)
    ensures db.Did(C.RunSet(c, old(db.View()), args, draw), C.SetName(c), args)
    ensures Answers(r, C.RunSet(c, old(db.View()), args, draw).answer)
  {
    hide DB.Owned, DB.View, C.ExecSAdd, C.ExecSRem, C.ExecSIsMember, C.ExecSCard, C.ExecSMembers, C.ExecAlgebra;
    hide C.ExecStore;
    hide C.ExecSPop, C.ExecSRandMember, C.SetDraws;
    DrawsNothing(c, db.View(), args);
    draw := [];
    match c
    case CSAdd => r := S.ExecSAdd(db, args);
    case CSIsMember => r := S.ExecSIsMember(db, args);
    case CSRem => r := S.ExecSRem(db, args);
    case CSCard => r := S.ExecSCard(db, args);
    case CSMembers => r := S.ExecSMembers(db, args);
    case CSInter => r := S.ExecAlgebra(db, args, C.Inter);
    case CSInterStore => r := S.ExecStore(db, args, C.Inter, "sinterstore");
    case CSUnion => r := S.ExecAlgebra(db, args, C.Union);
    case CSUnionStore => r := S.ExecStore(db, args, C.Union, "sunionstore");
    case CSDiff => r := S.ExecAlgebra(db, args, C.Diff);
    case CSDiffStore => r := S.ExecStore(db, args, C.Diff, "sdiffstore");
    case CSPop => r, draw := S.ExecSPop(db, args);
    case CSRandMember => r, draw := S.ExecSRandMember(db, args);
  }

  lemma DrawsNothing(c: C.SetCommand, ks: C.Keyspace, args: seq<Bytes>)
    requires |args| >= 1
    ensures c != C.CSPop && c != C.CSRandMember ==> C.SetDraws(c, ks, args) == C.NoDraw
  {
  }

  method RunKey(db: DB, c: C.KeyCommand, args: seq<Bytes>) returns (r: Reply)
    requires db.Owned() && C.ValidateArity(C.KeyArity(c), 1 + |args|)
    modifies db, db.Repr, db.dict, db.dict.table
    ensures db.Did(C.RunKey(c, old(db.View()), args), C.KeyName(c), args)
    ensures Answers(r, C.RunKey(c, old(db.View()), args).answer)
  {
    hide DB.Owned, DB.View, C.ExecDel, C.ExecExists, C.ExecKeys, C.ExecFlushDB, C.ExecType, C.ExecRename;
    hide C.ExecRenameNx;
    match c
    case CDel => r := K.ExecDel(db, args);
    case CExists => r := K.ExecExists(db, args);
    case CKeys => r := K.ExecKeys(db, args);
    case CFlushDB => r := K.ExecFlushDB(db, args);
    case CType => r := K.ExecType(db, args);
    case CRename => r := K.ExecRename(db, args);
    case CRenameNx => r := K.ExecRenameNx(db, args);
  }

  method RunString(db: DB, c: C.StringCommand, args: seq<Bytes>) returns (r: Reply)
    requires db.Owned() && C.ValidateArity(C.StringArity(c), 1 + |args|)
    modifies db, db.Repr, db.dict, db.dict.table
    ensures db.Did(C.RunString(c, old(db.View()), args), C.LogName(C.OnString(c)), args)
    ensures Answers(r, C.RunString(c, old(db.View()), args).answer)
  {
    hide DB.Owned, DB.View, C.ExecSet, C.ExecSetNx, C.ExecMSet, C.ExecMGet, C.ExecMSetNx, C.ExecGet, C.ExecGetSet;
    hide C.ExecIncr, C.ExecIncrBy, C.ExecDecr, C.ExecDecrBy, C.ExecStrLen, C.ExecAppend, C.ExecSetRange, C.ExecGetRange;
    match c
    case CSet => r := T.ExecSet(db, args);
    case CSetNx => r := T.ExecSetNx(db, args);
    case CMSet => r := T.ExecMSet(db, args);
    case CMGet => r := T.ExecMGet(db, args);
    case CMSetNx => r := T.ExecMSetNx(db, args);
    case CGet => r := T.ExecGet(db, args);
    case CGetSet => r := T.ExecGetSet(db, args);
    case CIncr => r := T.ExecIncr(db, args);
    case CIncrBy => r := T.ExecIncrBy(db, args);
    case CDecr => r := T.ExecDecr(db, args);
    case CDecrBy => r := T.ExecDecrBy(db, args);
    case CStrLen => r := T.ExecStrLen(db, args);
    case CAppend => r := T.ExecAppend(db, args);
    case CSetRange => r := T.ExecSetRange(db, args);
    case CGetRange => r := T.ExecGetRange(db, args);
  }

  method Run(db: DB, c: C.Command, args: seq<Bytes>) returns (r: Reply, ghost draw: seq<Bytes>)
    requires db.Valid() && C.ValidateArity(C.Arity(c), 1 + |args|)
    modifies db, db.Repr, db.dict, db.dict.table
    ensures C.Fits(C.DrawsOf(c, old(db.View()), args), draw)
    ensures db.Did(C.Run(c, old(db.View()), args, draw), C.LogName(c), args)
    ensures Answers(r, C.Run(c, old(db.View()), args, draw).answer)
  {
    hide DB.Owned, DB.View, C.RunString, C.RunKey, C.RunList, C.RunSet, C.SetDraws;
    hide C.StringArity, C.KeyArity, C.ListArity, C.SetArity, C.StringName, C.KeyName, C.ListName, C.SetName;
    draw := [];
    match c
    case CPing =>
      r := if args == [] then Status("PONG") else if |args| == 1 then Status(args[0]) else C.ArityError("ping");
    case OnString(s) => r := RunString(db, s, args);
    case OnKeys(k) => r := RunKey(db, k, args);
    case OnList(l) => r := RunList(db, l, args);
    case OnSet(m) => r, draw := RunSet(db, m, args);
  }

  /** Over every run and for every command line, the database in memory does what the command does
      to the keyspace it stands for, given what the command has drawn at random: same replies, same
      log lines; no two keys ever share an object, no list is ever empty, and no index is ever out
      of range. */
  method Exec(db: DB, line: C.CmdLine) returns (r: Reply, ghost draw: seq<Bytes>)
    requires db.Valid()
    modifies db, db.Repr, db.dict, db.dict.table
    ensures db.Valid() && fresh(db.Repr - old(db.Repr)) && (db.dict.table == old(db.dict.table) || fresh(db.dict.table))
    ensures C.Possible(old(db.View()), line, draw)
    ensures db.View() == C.ExecBy(old(db.View()), line, draw).0.ks
    ensures db.aof == old(db.aof) + C.ExecBy(old(db.View()), line, draw).1
    ensures Answers(r, C.ExecBy(old(db.View()), line, draw).0.answer)
  {
    hide DB.Owned, DB.View, C.Lookup, C.Run, ToLower, C.Arity, C.LogName, C.DrawsOf, LogCompleteness.ListsNonEmpty;
    draw := [];
    ghost var ks := db.View();
    var cmdName := ToLower(line[0]);
    var cmd := C.Lookup(cmdName);
    if cmd == None {
      return Err("ERR unknown command '" + cmdName + "'"), [];
    }
    if !C.ValidateArity(C.Arity(cmd.value), |line|) {
      return C.ArityError(cmdName), [];
    }
    r, draw := Run(db, cmd.value, line[1..]);
    LogCompleteness.ExecKeepsLists(ks, line, draw);
  }
}
