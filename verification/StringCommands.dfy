/** The string commands on a database in memory (database/string.go). */
module StringCommands {
  import opened Bytes
  import opened Reply
  import C = Commands
  import opened Database

  method PutString(db: DB, key: Bytes, value: Option<Bytes>, line: C.CmdLine)
    requires db.Owned()
    modifies db, db.dict, db.dict.table
    ensures db.dict.table == old(db.dict.table)
    ensures db.Owned() && db.Repr == old(db.Repr)
    ensures db.View() == old(db.View())[key := C.Str(value)] && db.aof == old(db.aof) + [line]
  {
    hide DB.Owned, DB.View;
    db.PutEntity(key, Text(value));
    db.AddAof(line);
  }

  method GetAsString(db: DB, key: Bytes) returns (f: C.Fetched)
    requires db.Owned()
    ensures f == C.GetAsString(db.View(), key)
  {
    var entity := db.GetEntity(key);
    if entity.None? {
      return C.Missing;
    }
    match entity.value
    case Text(None) => f := C.Missing;
    case Text(Some(b)) => f := C.Found(b);
    case _ => f := C.NotAString;
  }

  /** The loop over the options of SET. */
  method ParsePolicy(args: seq<Bytes>) returns (policy: Option<C.Policy>)
    requires |args| >= 2
    ensures policy == C.SetPolicy(args[2..], C.Upsert)
  {
    var p := C.Upsert;
    for i := 2 to |args|
      invariant C.SetPolicy(args[2..], C.Upsert) == C.SetPolicy(args[i..], p)
    {
      var arg := ToUpper(args[i]);
      assert args[i..][1..] == args[i + 1..];
      if arg == "NX" {
        if p == C.Update {
          return None;
        }
        p := C.Insert;
      } else if arg == "XX" {
        if p == C.Insert {
          return None;
        }
        p := C.Update;
      } else {
        return None;
      }
    }
    return Some(p);
  }

  method ExecSet(db: DB, args: seq<Bytes>) returns (r: Reply)
    requires db.Owned() && |args| >= 2
    modifies db, db.dict, db.dict.table
    ensures db.Did(C.ExecSet(old(db.View()), args), "set", args)
    ensures Answers(r, C.ExecSet(old(db.View()), args).answer)
  {
    hide DB.Owned, DB.View, C.SetPolicy, C.SyntaxError;
    var key, value := args[0], args[1];
    var policy := ParsePolicy(args);
    if policy == None {
      return C.SyntaxError();
    }
    db.Stores(key);
    var result := 1;
    match policy.value {
      case Upsert =>
        db.PutEntity(key, Text(Some(value)));
      case Insert =>
        result := db.PutIfAbsent(key, value);
      case Update =>
        result := db.PutIfExists(key, value);
    }
    db.AddAof(["set"] + args);
    if result > 0 {
      return OkReply();
    }
    r := NullBulk;
  }

  method ExecSetNx(db: DB, args: seq<Bytes>) returns (r: Reply)
    requires db.Owned() && |args| == 2
    modifies db, db.dict, db.dict.table
    ensures db.Did(C.ExecSetNx(old(db.View()), args), "setnx", args)
    ensures Answers(r, C.ExecSetNx(old(db.View()), args).answer)
  {
    hide DB.Owned, DB.View;
    var result := db.PutIfAbsent(args[0], args[1]);
    db.AddAof(["setnx"] + args);
    r := Int(result);
  }

  /** The loop that stores the pairs of MSET and MSETNX. */
  method PutPairs(db: DB, args: seq<Bytes>)
    requires db.Owned() && |args| % 2 == 0
    modifies db`data, db`Repr, db.dict, db.dict.table
    ensures db.dict.table == old(db.dict.table)
    ensures db.Owned() && db.Repr == old(db.Repr) && db.View() == C.PutPairs(old(db.View()), args)
  {
    hide DB.Owned, DB.View;
    for i := 0 to |args| / 2
      invariant db.Owned() && db.Repr == old(db.Repr) && db.dict.table == old(db.dict.table)
      invariant C.PutPairs(old(db.View()), args) == C.PutPairs(db.View(), args[2 * i..])
    {
      db.PutEntity(args[2 * i], Text(Some(args[2 * i + 1])));
      assert args[2 * i..][2..] == args[2 * (i + 1)..];
    }
  }

  method ExecMSet(db: DB, args: seq<Bytes>) returns (r: Reply)
    requires db.Owned()
    modifies db, db.dict, db.dict.table
    ensures db.Did(C.ExecMSet(old(db.View()), args), "mset", args)
    ensures Answers(r, C.ExecMSet(old(db.View()), args).answer)
  {
    hide DB.Owned, DB.View, C.PutPairs, C.SyntaxError;
    if |args| % 2 != 0 {
      return C.SyntaxError();
    }
    PutPairs(db, args);
    db.AddAof(["mset"] + args);
    r := OkReply();
  }

  method AnyStored(db: DB, args: seq<Bytes>) returns (stored: bool)
    requires db.Owned() && |args| % 2 == 0
    ensures stored <==> exists i :: 0 <= i < |args| && i % 2 == 0 && args[i] in db.View()
  {
    hide DB.Owned, DB.View;
    for i := 0 to |args| / 2
      invariant forall j :: 0 <= j < 2 * i && j % 2 == 0 ==> args[j] !in db.View()
    {
      db.Stores(args[2 * i]);
      var entity := db.GetEntity(args[2 * i]);
      if entity.Some? {
        return true;
      }
    }
    return false;
  }

  method ExecMSetNx(db: DB, args: seq<Bytes>) returns (r: Reply)
    requires db.Owned()
    modifies db, db.dict, db.dict.table
    ensures var e := C.ExecMSetNx(old(db.View()), args); db.Did(e, "msetnx", args) && Answers(r, e.answer)
  {
    hide DB.Owned, DB.View, C.PutPairs, C.SyntaxError;
    if |args| % 2 != 0 {
      return C.SyntaxError();
    }
    var stored := AnyStored(db, args);
    if stored {
      return Int(0);
    }
    PutPairs(db, args);
    db.AddAof(["msetnx"] + args);
    r := Int(1);
  }

  method ExecGet(db: DB, args: seq<Bytes>) returns (r: Reply)
    requires db.Owned() && |args| == 1
    ensures C.ExecGet(db.View(), args) == C.Unchanged(db.View(), r)
  {
    hide DB.Owned, DB.View, C.GetAsString, C.WrongType;
    var f := GetAsString(db, args[0]);
    if f.NotAString? {
      return C.WrongType();
    }
    if f.Missing? {
      return NullBulk;
    }
    r := Bulk(f.bytes);
  }

  method ExecMGet(db: DB, args: seq<Bytes>) returns (r: Reply)
    requires db.Owned()
    ensures C.ExecMGet(db.View(), args) == C.Unchanged(db.View(), r)
  {
    hide DB.Owned, DB.View, C.GetAsString;
    var result: seq<Option<Bytes>> := [];
    for i := 0 to |args|
      invariant |result| == i
      invariant forall j :: 0 <= j < i ==>
        result[j] == var f := C.GetAsString(db.View(), args[j]); if f.Found? then Some(f.bytes) else None
    {
      var f := GetAsString(db, args[i]);
      result := result + [if f.Found? then Some(f.bytes) else None];
    }
    assert result == C.ExecMGet(db.View(), args).answer.reply.args;
    r := MultiBulk(result);
  }

  method ExecGetSet(db: DB, args: seq<Bytes>) returns (r: Reply)
    requires db.Owned() && |args| == 2
    modifies db, db.dict, db.dict.table
    ensures db.Did(C.ExecGetSet(old(db.View()), args), "getset", args)
    ensures Answers(r, C.ExecGetSet(old(db.View()), args).answer)
  {
    hide DB.Owned, DB.View, C.GetAsString, C.WrongType;
    var f := GetAsString(db, args[0]);
    if f.NotAString? {
      return C.WrongType();
    }
    db.PutEntity(args[0], Text(Some(args[1])));
    if f.Missing? {
      return NullBulk;
    }
    db.AddAof(["getset"] + args);
    r := Bulk(f.bytes);
  }

  /** INCR, INCRBY, DECR and DECRBY. */
  method AddTo(db: DB, key: Bytes, delta: int, initial: Bytes, initialValue: int, line: C.CmdLine) returns (r: Reply)
    requires db.Owned()
    modifies db, db.dict, db.dict.table
    ensures db.dict.table == old(db.dict.table)
    ensures var e := C.AddTo(old(db.View()), key, delta, initial, initialValue);
            && db.Owned() && db.Repr == old(db.Repr) && db.View() == e.ks && Answers(r, e.answer)
            && db.aof == old(db.aof) + if e.logged then [line] else []
  {
    hide DB.Owned, DB.View, C.GetAsString, ParseInt, FormatInt, C.WrongType, C.NotInteger;
    var f := GetAsString(db, key);
    if f.NotAString? {
      return C.WrongType();
    }
    if f.Found? {
      var val := ParseInt(f.bytes);
      if val == None {
        return C.NotInteger();
      }
      var sum := Wrap64(val.value + delta);
      PutString(db, key, Some(FormatInt(sum)), line);
      return Int(sum);
    }
    PutString(db, key, Some(initial), line);
    r := Int(initialValue);
  }

  method ExecIncr(db: DB, args: seq<Bytes>) returns (r: Reply)
    requires db.Owned() && |args| == 1
    modifies db, db.dict, db.dict.table
    ensures db.Did(C.ExecIncr(old(db.View()), args), "incr", args)
    ensures Answers(r, C.ExecIncr(old(db.View()), args).answer)
  {
    hide DB.Owned, DB.View, C.AddTo;
    r := AddTo(db, args[0], 1, "1", 1, ["incr"] + args);
  }

  method ExecDecr(db: DB, args: seq<Bytes>) returns (r: Reply)
    requires db.Owned() && |args| == 1
    modifies db, db.dict, db.dict.table
    ensures db.Did(C.ExecDecr(old(db.View()), args), "decr", args)
    ensures Answers(r, C.ExecDecr(old(db.View()), args).answer)
  {
    hide DB.Owned, DB.View, C.AddTo;
    r := AddTo(db, args[0], -1, "-1", -1, ["decr"] + args);
  }

  method ExecIncrBy(db: DB, args: seq<Bytes>) returns (r: Reply)
    requires db.Owned() && |args| == 2
    modifies db, db.dict, db.dict.table
    ensures db.Did(C.ExecIncrBy(old(db.View()), args), "incrby", args)
    ensures Answers(r, C.ExecIncrBy(old(db.View()), args).answer)
  {
    hide DB.Owned, DB.View, C.AddTo, ParseInt, C.NotInteger;
    var delta := ParseInt(args[1]);
    if delta == None {
      return C.NotInteger();
    }
    r := AddTo(db, args[0], delta.value, args[1], delta.value, ["incrby"] + args);
  }

  method ExecDecrBy(db: DB, args: seq<Bytes>) returns (r: Reply)
    requires db.Owned() && |args| == 2
    modifies db, db.dict, db.dict.table
    ensures db.Did(C.ExecDecrBy(old(db.View()), args), "decrby", args)
    ensures Answers(r, C.ExecDecrBy(old(db.View()), args).answer)
  {
    hide DB.Owned, DB.View, C.AddTo, ParseInt, FormatInt, C.NotInteger;
    var delta := ParseInt(args[1]);
    if delta == None {
      return C.NotInteger();
    }
    var negated := Wrap64(-delta.value);
    r := AddTo(db, args[0], -delta.value, FormatInt(negated), negated, ["decrby"] + args);
  }

  method ExecStrLen(db: DB, args: seq<Bytes>) returns (r: Reply)
    requires db.Owned() && |args| == 1
    ensures C.ExecStrLen(db.View(), args) == C.Unchanged(db.View(), r)
  {
    hide DB.Owned, DB.View, C.GetAsString, C.WrongType;
    var f := GetAsString(db, args[0]);
    if f.NotAString? {
      return C.WrongType();
    }
    if f.Missing? {
      return Int(0);
    }
    r := Int(|f.bytes|);
  }

  method ExecAppend(db: DB, args: seq<Bytes>) returns (r: Reply)
    requires db.Owned() && |args| == 2
    modifies db, db.dict, db.dict.table
    ensures db.Did(C.ExecAppend(old(db.View()), args), "append", args)
    ensures Answers(r, C.ExecAppend(old(db.View()), args).answer)
  {
    hide DB.Owned, DB.View, C.GetAsString, C.WrongType;
    var f := GetAsString(db, args[0]);
    if f.NotAString? {
      return C.WrongType();
    }
    var bytes := C.Appended(f, args[1]);
    PutString(db, args[0], bytes, ["append"] + args);
    r := Int(|Fill(bytes)|);
  }

  /** The loop of SETRANGE: bytes inside the padded string are overwritten, the others appended. */
  method Overwrite(before: Bytes, offset: nat, value: Bytes) returns (bytes: Bytes)
    ensures bytes == C.Overwritten(before, offset, value)
  {
    bytes := before;
    if |bytes| < offset {
      bytes := bytes + C.Zeros(offset - |bytes|);
    }
    var bytesLen := |bytes|;
    ghost var padded := bytes;
    for i := 0 to |value|
      invariant bytes == padded[..offset] + value[..i] + Rest(padded, offset + i)
    {
      var idx := offset + i;
      WriteNext(padded, offset, value, i);
      if idx >= bytesLen {
        bytes := bytes + [value[i]];
      } else {
        bytes := bytes[idx := value[i]];
      }
    }
    assert value[..|value|] == value;
  }

  function Rest(s: Bytes, n: nat): Bytes {
    if n < |s| then s[n..] else []
  }

  lemma WriteNext(padded: Bytes, offset: nat, value: Bytes, i: nat)
    requires offset <= |padded| && i < |value|
    ensures var bytes := padded[..offset] + value[..i] + Rest(padded, offset + i);
            var next := padded[..offset] + value[..i + 1] + Rest(padded, offset + i + 1);
            && (offset + i >= |padded| ==> next == bytes + [value[i]])
            && (offset + i < |padded| ==> offset + i < |bytes| && next == bytes[offset + i := value[i]])
  {
    assert value[..i + 1] == value[..i] + [value[i]];
  }

  lemma SetRangeEffect(ks: C.Keyspace, args: seq<Bytes>)
    requires |args| == 3
    ensures ParseInt(args[1]) == None ==> C.ExecSetRange(ks, args) == C.Unchanged(ks, Err("strconv.ParseInt"))
    ensures ParseInt(args[1]).Some? ==>
      var offset, f, value := ParseInt(args[1]).value, C.GetAsString(ks, args[0]), args[2];
      && (f.NotAString? ==> C.ExecSetRange(ks, args) == C.Unchanged(ks, C.WrongType()))
      && var before := if f.Found? then f.bytes else [];
         var panics := C.Overlong(before, offset) || (offset < 0 && value != []);
      && (!f.NotAString? && panics ==> C.ExecSetRange(ks, args) == C.Unchanged(ks, C.UnknownError()))
      && (!f.NotAString? && !panics ==>
            var after := if offset < 0 then before else C.Overwritten(before, offset, value);
            var stored := if f.Missing? && after == [] then None else Some(after);
            C.ExecSetRange(ks, args) == C.Done(ks[args[0] := C.Str(stored)], Int(|after|)))
  {
    hide C.GetAsString, C.Overwritten, C.Overlong, ParseInt;
  }

  method ExecSetRange(db: DB, args: seq<Bytes>) returns (r: Reply)
    requires db.Owned() && |args| == 3
    modifies db, db.dict, db.dict.table
    ensures db.Did(C.ExecSetRange(old(db.View()), args), "setRange", args)
    ensures Answers(r, C.ExecSetRange(old(db.View()), args).answer)
  {
    hide DB.Owned, DB.View, C.GetAsString, C.Overwritten, ParseInt, C.ExecSetRange, C.WrongType;
    SetRangeEffect(db.View(), args);
    var offset := ParseInt(args[1]);
    if offset == None {
      return Err("strconv.ParseInt");
    }
    var f := GetAsString(db, args[0]);
    if f.NotAString? {
      return C.WrongType();
    }
    var bytes := if f.Found? then f.bytes else [];
    if |bytes| < offset.value && offset.value > MAX_SLICE {
      return C.UnknownError();
    }
    if offset.value < 0 {
      if args[2] != [] {
        return C.UnknownError();
      }
    } else {
      bytes := Overwrite(bytes, offset.value, args[2]);
    }
    PutString(db, args[0], if f.Missing? && bytes == [] then None else Some(bytes), ["setRange"] + args);
    r := Int(|bytes|);
  }

  method ExecGetRange(db: DB, args: seq<Bytes>) returns (r: Reply)
    requires db.Owned() && |args| == 3
    ensures C.ExecGetRange(db.View(), args) == C.Unchanged(db.View(), r)
  {
    hide DB.Owned, DB.View, C.GetAsString, ParseInt, C.WrongType;
    var first := ParseInt(args[1]);
    if first == None {
      return Err("strconv.ParseInt");
    }
    var last := ParseInt(args[2]);
    if last == None {
      return Err("strconv.ParseInt");
    }
    var f := GetAsString(db, args[0]);
    if f.NotAString? {
      return C.WrongType();
    }
    if f.Missing? {
      return NullBulk;
    }
    var startIdx, endIdx, bytesLen := first.value, last.value, |f.bytes|;
    if startIdx < -1 * bytesLen {
      return NullBulk;
    } else if startIdx < 0 {
      startIdx := bytesLen + startIdx;
    } else if startIdx >= bytesLen {
      return NullBulk;
    }
    if endIdx < -1 * bytesLen {
      return NullBulk;
    } else if endIdx < 0 {
      endIdx := bytesLen + endIdx + 1;
    } else if endIdx < bytesLen {
      endIdx := endIdx + 1;
    } else {
      endIdx := bytesLen;
    }
    if startIdx > endIdx {
      return NullBulk;
    }
    r := Bulk(f.bytes[startIdx..endIdx]);
  }
}
