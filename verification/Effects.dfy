/** What the commands of string.go and keys.go achieve, in terms other than their code. */
module Effects {
  import opened Bytes
  import opened Reply
  import opened Sequences
  import opened Commands

  // ---- SETRANGE and GETRANGE

  /** Byte i after value has been written at an offset: the written byte inside the range, the old
      one outside it, zero where there was none. */
  function ByteAfter(before: Bytes, offset: nat, value: Bytes, i: nat): byte {
    if offset <= i < offset + |value| then value[i - offset]
    else if i < |before| then before[i]
    else '\0'
  }

  lemma OverwrittenIs(before: Bytes, offset: nat, value: Bytes)
    ensures var after := Overwritten(before, offset, value);
            && |after| == (if offset + |value| > |before| then offset + |value| else |before|)
            && forall i :: 0 <= i < |after| ==> after[i] == ByteAfter(before, offset, value, i)
  {
    var padded := if |before| < offset then before + Zeros(offset - |before|) else before;
    var tail := if offset + |value| < |padded| then padded[offset + |value|..] else [];
    var after := padded[..offset] + value + tail;
    forall i | 0 <= i < |after| ensures after[i] == ByteAfter(before, offset, value, i) {
      if i < offset {
        assert after[i] == padded[i];
      } else if i < offset + |value| {
        assert after[i] == value[i - offset];
      } else {
        assert after[i] == tail[i - offset - |value|] == padded[i];
      }
    }
  }

  /** GETRANGE lists the bytes between its two bounds, both included and counted from the end if
      negative; it answers nil exactly if a bound lies before the string, the first one past it,
      or the first one more than one past the second. */
  lemma GetRangeIff(ks: Keyspace, args: seq<Bytes>, b: Bytes)
    requires |args| == 3 && ParseInt(args[1]).Some? && ParseInt(args[2]).Some?
    requires GetAsString(ks, args[0]) == Found(b)
    ensures var lo, hi := FromEnd(ParseInt(args[1]).value, |b|), FromEnd(ParseInt(args[2]).value, |b|);
            ExecGetRange(ks, args) == Unchanged(ks,
              if lo < 0 || lo >= |b| || hi < 0 || lo > hi + 1 then NullBulk else Bulk(Between(b, lo, hi)))
  {
    hide ParseInt, Between, Clip, GetAsString, ExecGetRange;
    var first, last := ParseInt(args[1]).value, ParseInt(args[2]).value;
    var lo, hi := FromEnd(first, |b|), FromEnd(last, |b|);
    BetweenIs(b, lo, hi);
    GetRangeReply(ks, args, b);
    if 0 <= lo < |b| && 0 <= hi && lo <= hi + 1 {
      ClipInside(b, lo, hi);
    }
  }

  /** The command with its indices resolved. */
  lemma GetRangeReply(ks: Keyspace, args: seq<Bytes>, b: Bytes)
    requires |args| == 3 && ParseInt(args[1]).Some? && ParseInt(args[2]).Some?
    requires GetAsString(ks, args[0]) == Found(b)
    ensures var lo, hi := FromEnd(ParseInt(args[1]).value, |b|), FromEnd(ParseInt(args[2]).value, |b|);
            var end := if hi < |b| then hi + 1 else |b|;
            && (lo < 0 || lo >= |b| || hi < 0 || lo > end ==> ExecGetRange(ks, args) == Unchanged(ks, NullBulk))
            && (0 <= lo < |b| && 0 <= hi && lo <= end ==> ExecGetRange(ks, args) == Unchanged(ks, Bulk(b[lo..end])))
  {
    hide ParseInt, GetAsString;
  }

  lemma ClipInside(b: Bytes, lo: nat, hi: nat)
    requires lo < |b| && lo <= hi + 1
    ensures Clip(b, lo, hi) == b[lo..if hi < |b| then hi + 1 else |b|]
  {
  }

  /** What SETRANGE has written, GETRANGE reads back; it writes nothing exactly if the offset lies
      past the string and past what a slice can hold. */
  lemma SetRangeReadsBack(ks: Keyspace, key: Bytes, offset: nat, value: Bytes)
    requires value != [] && IsInt64(offset + |value|) && !GetAsString(ks, key).NotAString?
    ensures var f, e := GetAsString(ks, key), ExecSetRange(ks, [key, FormatInt(offset), value]);
            if Overlong(if f.Found? then f.bytes else [], offset) then e == Unchanged(ks, UnknownError())
            else ExecGetRange(e.ks, [key, FormatInt(offset), FormatInt(offset + |value| - 1)])
                 == Unchanged(e.ks, Bulk(value))
  {
    hide Overwritten, Overlong, Between, FormatInt, ParseInt, UnknownError;
    ParseIntOfFormatInt(offset);
    ParseIntOfFormatInt(offset + |value| - 1);
    var f := GetAsString(ks, key);
    var before := if f.Found? then f.bytes else [];
    if Overlong(before, offset) {
      return;
    }
    var after := Overwritten(before, offset, value);
    OverwrittenIs(before, offset, value);
    var written := ExecSetRange(ks, [key, FormatInt(offset), value]).ks;
    assert GetAsString(written, key) == Found(after);
    GetRangeIff(written, [key, FormatInt(offset), FormatInt(offset + |value| - 1)], after);
    BetweenIs(after, offset, offset + |value| - 1);
    assert after[offset..offset + |value|] == value;
  }

  // ---- counters

  /** A run of INCRBY commands on one key. */
  function IncrAll(ks: Keyspace, key: Bytes, deltas: seq<int>): Keyspace {
    if deltas == [] then ks
    else ExecIncrBy(IncrAll(ks, key, deltas[..|deltas| - 1]), [key, FormatInt(deltas[|deltas| - 1])]).ks
  }

  function Sum(ns: seq<int>): int {
    if ns == [] then 0 else Sum(ns[..|ns| - 1]) + ns[|ns| - 1]
  }

  lemma WrapSum(n: int, d: int)
    ensures Wrap64(Wrap64(n) + d) == Wrap64(n + d) && IsInt64(Wrap64(n))
    ensures IsInt64(n) ==> Wrap64(n) == n
  {
  }

  /** A counter holds the sum of all its increments, modulo 2^64. */
  lemma {:induction false} CountersAddUp(ks: Keyspace, key: Bytes, start: int, deltas: seq<int>)
    requires IsInt64(start) && GetAsString(ks, key) == Found(FormatInt(start))
    requires forall i :: 0 <= i < |deltas| ==> IsInt64(deltas[i])
    ensures IncrAll(ks, key, deltas) == ks[key := Str(Some(FormatInt(Wrap64(start + Sum(deltas)))))]
  {
    hide Wrap64, FormatInt, ParseInt;
    WrapSum(start, 0);
    if deltas == [] {
      assert ks[key := ks[key]] == ks;
    } else {
      var front, last := deltas[..|deltas| - 1], deltas[|deltas| - 1];
      CountersAddUp(ks, key, start, front);
      var n := Wrap64(start + Sum(front));
      WrapSum(start + Sum(front), last);
      ParseIntOfFormatInt(n);
      ParseIntOfFormatInt(last);
      OneIncrement(IncrAll(ks, key, front), key, n, last);
    }
  }

  lemma OneIncrement(ks: Keyspace, key: Bytes, n: int, delta: int)
    requires GetAsString(ks, key) == Found(FormatInt(n)) && IsInt64(n) && IsInt64(delta)
    ensures ExecIncrBy(ks, [key, FormatInt(delta)]).ks == ks[key := Str(Some(FormatInt(Wrap64(n + delta))))]
  {
    hide FormatInt, ParseInt, Wrap64;
    ParseIntOfFormatInt(n);
    ParseIntOfFormatInt(delta);
  }

  // ---- several keys at once

  /** The value of the last pair that names a key. */
  function LastValue(args: seq<Bytes>, key: Bytes): Option<Bytes>
    requires |args| % 2 == 0
    decreases |args|
  {
    if args == [] then None
    else if args[|args| - 2] == key then Some(args[|args| - 1])
    else LastValue(args[..|args| - 2], key)
  }

  lemma {:induction false} PutPairsLast(ks: Keyspace, args: seq<Bytes>)
    requires |args| % 2 == 0 && |args| >= 2
    ensures PutPairs(ks, args) == PutString(PutPairs(ks, args[..|args| - 2]), args[|args| - 2], args[|args| - 1])
    decreases |args|
  {
    if |args| > 2 {
      PutPairsLast(PutString(ks, args[0], args[1]), args[2..]);
      assert args[2..][..|args| - 4] == args[..|args| - 2][2..];
    } else {
      assert args[2..] == [] && args[..0] == [];
    }
  }

  /** MSET binds each key to the value of the last pair that names it, and no other key. */
  lemma {:induction false} MSetLastWins(ks: Keyspace, args: seq<Bytes>, key: Bytes)
    requires |args| % 2 == 0
    ensures var after := PutPairs(ks, args);
            match LastValue(args, key)
            case Some(v) => key in after && after[key] == Str(Some(v))
            case None => (key in after <==> key in ks) && (key in ks ==> after[key] == ks[key])
    decreases |args|
  {
    if args != [] {
      PutPairsLast(ks, args);
      MSetLastWins(ks, args[..|args| - 2], key);
    }
  }

  lemma RemoveTwice(ks: Keyspace, key: Bytes, others: set<Bytes>)
    ensures ks - {key} - others == ks - (others + {key})
    ensures (ks - {key}).Keys == ks.Keys - {key}
  {
  }

  lemma CountOne(keys: set<Bytes>, key: Bytes, others: set<Bytes>)
    ensures |keys * (others + {key})| == |(keys - {key}) * others| + if key in keys then 1 else 0
  {
    var rest := (keys - {key}) * others;
    if key in keys {
      assert keys * (others + {key}) == rest + {key};
    } else {
      assert keys * (others + {key}) == rest;
    }
  }

  /** DEL removes exactly the keys it names and counts those that were there, once each. */
  lemma {:induction false} RemovesExactly(ks: Keyspace, keys: seq<Bytes>)
    ensures Removes(ks, keys).0 == ks - SetOf(keys)
    ensures Removes(ks, keys).1 == |ks.Keys * SetOf(keys)|
    decreases keys
  {
    hide SetOf, Removes;
    SetOfFirst(keys);
    assert Removes(ks, []) == (ks, 0) by { RemovesNothing(ks); }
    if keys == [] {
      assert ks - {} == ks && ks.Keys * {} == {};
    } else {
      var key, others := keys[0], SetOf(keys[1..]);
      RemovesExactly(ks - {key}, keys[1..]);
      RemoveTwice(ks, key, others);
      CountOne(ks.Keys, key, others);
      RemovesStep(ks, keys);
    }
  }

  lemma RemovesNothing(ks: Keyspace)
    ensures Removes(ks, []) == (ks, 0)
  {
  }

  lemma SetOfFirst(keys: seq<Bytes>)
    ensures SetOf(keys) == if keys == [] then {} else SetOf(keys[1..]) + {keys[0]}
  {
  }

  /** Renaming a key and back restores the keyspace exactly if the other name was free. */
  lemma RenameBackIff(ks: Keyspace, a: Bytes, b: Bytes)
    requires a in ks
    ensures ExecRename(ExecRename(ks, [a, b]).ks, [b, a]).ks == ks <==> a != b && b !in ks
  {
    var once := ExecRename(ks, [a, b]).ks;
    var twice := ExecRename(once, [b, a]).ks;
    if a == b {
      assert a !in once && twice == once;
    } else {
      assert twice == once[a := ks[a]] - {b};
      assert b !in twice && (b !in ks ==> twice == ks);
    }
  }

  // ---- SET, SETNX and GETSET

  /** An option of SET is given, in capitals or not. */
  ghost predicate Given(options: seq<Bytes>, name: Bytes) {
    exists i :: 0 <= i < |options| && ToUpper(options[i]) == name
  }

  ghost predicate OnlyPolicies(options: seq<Bytes>) {
    forall i :: 0 <= i < |options| ==> ToUpper(options[i]) == "NX" || ToUpper(options[i]) == "XX"
  }

  lemma GivenFirst(options: seq<Bytes>, name: Bytes)
    requires options != []
    ensures Given(options, name) <==> ToUpper(options[0]) == name || Given(options[1..], name)
    ensures OnlyPolicies(options) <==>
            (ToUpper(options[0]) == "NX" || ToUpper(options[0]) == "XX") && OnlyPolicies(options[1..])
  {
    hide ToUpper;
    var rest := options[1..];
    assert forall i :: 0 < i < |options| ==> options[i] == rest[i - 1];
    assert forall i :: 0 <= i < |rest| ==> rest[i] == options[i + 1];
  }

  /** What the options mean together, after those that have led to a policy. */
  lemma {:induction false} PolicyIff(options: seq<Bytes>, before: Policy)
    ensures var insert := before == Insert || Given(options, "NX");
            var update := before == Update || Given(options, "XX");
            SetPolicy(options, before) ==
            if !OnlyPolicies(options) || (insert && update) then None
            else Some(if insert then Insert else if update then Update else Upsert)
    decreases options
  {
    hide ToUpper;
    if options != [] {
      GivenFirst(options, "NX");
      GivenFirst(options, "XX");
      assert "NX"[0] != "XX"[0];
      hide Given, OnlyPolicies;
      PolicyIff(options[1..], Insert);
      PolicyIff(options[1..], Update);
    }
  }

  /** SET binds its key exactly if its options are NX or XX, not both, and NX finds no key and XX
      finds one; then it answers OK and the value can be read back. Otherwise nothing changes. */
  lemma SetIff(ks: Keyspace, args: seq<Bytes>)
    requires |args| >= 2
    ensures var e, options := ExecSet(ks, args), args[2..];
            var nx, xx := Given(options, "NX"), Given(options, "XX");
      && (e.answer == Plain(OkReply()) <==>
            OnlyPolicies(options) && !(nx && xx) && (nx ==> args[0] !in ks) && (xx ==> args[0] in ks))
      && (if e.answer == Plain(OkReply())
          then e.ks == ks[args[0] := Str(Some(args[1]))] && ExecGet(e.ks, [args[0]]).answer == Plain(Bulk(args[1]))
          else e.ks == ks)
  {
    hide Given, OnlyPolicies, SetPolicy, SyntaxError;
    PolicyIff(args[2..], Upsert);
    assert SyntaxError().Err? by { SyntaxErrorIsErr(); }
  }

  lemma SyntaxErrorIsErr()
    ensures SyntaxError().Err?
  {
  }

  /** Commands that write one key, one after the other, with their answers. */
  function WriteAll(ks: Keyspace, key: Bytes, values: seq<Bytes>, swap: bool): (r: (Keyspace, seq<Answer>))
    ensures |r.1| == |values|
    decreases |values|
  {
    if values == [] then (ks, [])
    else
      var front := WriteAll(ks, key, values[..|values| - 1], swap);
      var args := [key, values[|values| - 1]];
      var e := if swap then ExecGetSet(front.0, args) else ExecSetNx(front.0, args);
      (e.ks, front.1 + [e.answer])
  }

  /** However many SETNX compete for a free key, the first one wins, and only it is told so. */
  lemma {:induction false} FirstWriterWins(ks: Keyspace, key: Bytes, values: seq<Bytes>)
    ensures var r := WriteAll(ks, key, values, false);
      && r.0 == (if key in ks || values == [] then ks else ks[key := Str(Some(values[0]))])
      && forall i :: 0 <= i < |values| ==> r.1[i] == Plain(Int(if key !in ks && i == 0 then 1 else 0))
    decreases |values|
  {
    if values != [] {
      FirstWriterWins(ks, key, values[..|values| - 1]);
    }
  }

  /** A chain of GETSET on a string or on nothing: each is answered with the value that the one
      before it has stored, and the last value stays. */
  lemma {:induction false} GetSetChain(ks: Keyspace, key: Bytes, values: seq<Bytes>)
    requires !GetAsString(ks, key).NotAString?
    ensures var r := WriteAll(ks, key, values, true);
      && r.0 == (if values == [] then ks else ks[key := Str(Some(values[|values| - 1]))])
      && forall i :: 0 <= i < |values| ==>
           r.1[i] == if i == 0 then ExecGet(ks, [key]).answer else Plain(Bulk(values[i - 1]))
    decreases |values|
  {
    if values != [] {
      var front := values[..|values| - 1];
      GetSetChain(ks, key, front);
      assert front != [] ==> front[|front| - 1] == values[|values| - 2];
    }
  }
}
