/** The commands of string.go in terms of each other: what GET answers is what a string is, and every
    other command is told by what GET answers before and after it. */
module StringLaws {
  import opened Bytes
  import opened Reply
  import opened Sequences
  import opened Commands
  import opened Effects

  /** What GET answers. */
  function Get(ks: Keyspace, key: Bytes): Answer {
    RunString(CGet, ks, [key]).answer
  }

  /** GET answers the bytes of a string, nil for an absent key and for a nil string, and the type error
      for anything else; it changes and logs nothing. */
  lemma GetIff(ks: Keyspace, key: Bytes)
    ensures RunString(CGet, ks, [key]) == Unchanged(ks,
      if key !in ks || ks[key] == Str(None) then NullBulk
      else if ks[key].Str? then Bulk(ks[key].data.value)
      else WrongType())
  {
    hide WrongType;
  }

  /** The bytes at a key that holds a string or nothing. */
  function Text(ks: Keyspace, key: Bytes): Bytes {
    if key in ks && ks[key].Str? && ks[key].data.Some? then ks[key].data.value else []
  }

  predicate OtherType(ks: Keyspace, key: Bytes) {
    key in ks && !ks[key].Str?
  }

  predicate HasText(ks: Keyspace, key: Bytes) {
    key in ks && ks[key].Str? && ks[key].data.Some?
  }

  /** MGET answers one entry per key: what GET answers if that is a string, and nil otherwise. */
  lemma MGetIff(ks: Keyspace, keys: seq<Bytes>)
    requires keys != []
    ensures var e := RunString(CMGet, ks, keys);
      && e.ks == ks && !e.logged && e.answer.Plain? && e.answer.reply.MultiBulk? && |e.answer.reply.args| == |keys|
      && forall i :: 0 <= i < |keys| ==>
           e.answer.reply.args[i] == if HasText(ks, keys[i]) then Some(Text(ks, keys[i])) else None
  {
  }

  /** STRLEN answers the number of bytes that GET answers, and 0 for nil. */
  lemma StrLenIff(ks: Keyspace, key: Bytes)
    ensures RunString(CStrLen, ks, [key]) ==
            Unchanged(ks, if OtherType(ks, key) then WrongType() else Int(|Text(ks, key)|))
  {
    hide WrongType;
  }

  /** APPEND puts the new bytes behind the old ones, and answers how many there are then; only nothing
      appended to nothing leaves a string that GET answers nil for. */
  lemma AppendIff(ks: Keyspace, key: Bytes, more: Bytes)
    ensures var e := RunString(CAppend, ks, [key, more]);
            if OtherType(ks, key) then e == Unchanged(ks, WrongType())
            else
              var text := Text(ks, key) + more;
              && e.ks == ks[key := if text == [] && !HasText(ks, key) then Str(None) else Str(Some(text))]
              && e.answer == Plain(Int(|text|)) && e.logged
  {
    hide WrongType;
    assert [] + more == more;
  }

  // ---- counters

  datatype Counter = Incr | Decr | IncrBy(d: int) | DecrBy(d: int)

  function RunCounter(c: Counter, ks: Keyspace, key: Bytes): Effect {
    match c
    case Incr => RunString(CIncr, ks, [key])
    case Decr => RunString(CDecr, ks, [key])
    case IncrBy(d) => RunString(CIncrBy, ks, [key, FormatInt(d)])
    case DecrBy(d) => RunString(CDecrBy, ks, [key, FormatInt(d)])
  }

  /** What a command adds. */
  function Change(c: Counter): int {
    match c
    case Incr => 1
    case Decr => -1
    case IncrBy(d) => d
    case DecrBy(d) => -d
  }

  predicate InRange(c: Counter) {
    c.IncrBy? || c.DecrBy? ==> IsInt64(c.d)
  }

  /** Each of the four commands on a number, on nothing, on text that is no number, and on another type:
      the number it stores and answers is the old one, or 0, and what it adds, in 64 bits. */
  lemma CounterIff(c: Counter, ks: Keyspace, key: Bytes)
    requires InRange(c)
    ensures var e := RunCounter(c, ks, key);
            if OtherType(ks, key) then e == Unchanged(ks, WrongType())
            else if !HasText(ks, key) then
              e == Done(ks[key := Str(Some(FormatInt(Wrap64(Change(c)))))], Int(Wrap64(Change(c))))
            else if ParseInt(Text(ks, key)) == None then e == Unchanged(ks, NotInteger())
            else
              var n := Wrap64(ParseInt(Text(ks, key)).value + Change(c));
              e == Done(ks[key := Str(Some(FormatInt(n)))], Int(n))
  {
    hide WrongType, NotInteger, FormatInt, ParseInt, Wrap64;
    WrapSum(Change(c), 0);
    ParseIntOfFormatInt(if c.IncrBy? || c.DecrBy? then c.d else 0);
    OnesText();
  }

  lemma OnesText()
    ensures FormatInt(1) == "1" && FormatInt(-1) == "-1" && Wrap64(1) == 1 && Wrap64(-1) == -1
  {
    assert Itoa(1) == "1";
  }

  function RunCounters(ks: Keyspace, key: Bytes, cs: seq<Counter>): Keyspace {
    if cs == [] then ks else RunCounter(cs[|cs| - 1], RunCounters(ks, key, cs[..|cs| - 1]), key).ks
  }

  function Total(cs: seq<Counter>): int {
    if cs == [] then 0 else Total(cs[..|cs| - 1]) + Change(cs[|cs| - 1])
  }

  /** Any run of the four commands on a number leaves it and the sum of what they add, modulo 2^64. */
  lemma {:induction false} MixedCountersAddUp(ks: Keyspace, key: Bytes, start: int, cs: seq<Counter>)
    requires IsInt64(start) && GetAsString(ks, key) == Found(FormatInt(start)) && forall c <- cs :: InRange(c)
    ensures RunCounters(ks, key, cs) == ks[key := Str(Some(FormatInt(Wrap64(start + Total(cs)))))]
  {
    hide Wrap64, FormatInt, ParseInt, RunCounter, Change, InRange;
    WrapSum(start, 0);
    if cs == [] {
      assert ks[key := ks[key]] == ks;
    } else {
      var front, last := cs[..|cs| - 1], cs[|cs| - 1];
      assert last in cs && forall c <- front :: c in cs;
      MixedCountersAddUp(ks, key, start, front);
      var n := Wrap64(start + Total(front));
      WrapSum(start + Total(front), Change(last));
      ParseIntOfFormatInt(n);
      CounterIff(last, RunCounters(ks, key, front), key);
    }
  }

  // ---- several keys

  /** Every other argument is a key. */
  ghost predicate Names(args: seq<Bytes>, key: Bytes) {
    exists i :: 0 <= i < |args| && i % 2 == 0 && args[i] == key
  }

  /** MSET binds every key to the last value given for it; MSETNX does so and answers 1 if none of the
      keys was there, and otherwise changes and logs nothing and answers 0. A key without a value is a
      syntax error. */
  lemma MSetIff(ks: Keyspace, args: seq<Bytes>)
    requires |args| >= 2
    ensures var e, f := RunString(CMSet, ks, args), RunString(CMSetNx, ks, args);
            if |args| % 2 != 0 then e == Unchanged(ks, SyntaxError()) == f
            else
              && e.answer == Plain(OkReply()) && e.logged
              && (forall key ::
                    match LastValue(args, key)
                    case Some(v) => key in e.ks && e.ks[key] == Str(Some(v))
                    case None => (key in e.ks <==> key in ks) && (key in ks ==> e.ks[key] == ks[key]))
              && f == if exists key :: Names(args, key) && key in ks then Unchanged(ks, Int(0)) else Done(e.ks, Int(1))
  {
    hide PutPairs, SyntaxError, LastValue;
    if |args| % 2 == 0 {
      forall key {
        MSetLastWins(ks, args, key);
      }
      if exists i :: 0 <= i < |args| && i % 2 == 0 && args[i] in ks {
        var i :| 0 <= i < |args| && i % 2 == 0 && args[i] in ks;
        assert Names(args, args[i]);
      }
    }
  }

  // ---- SET and SETRANGE

  /** The answer of SET, and that a refused one is logged like the others. */
  lemma SetAnswers(ks: Keyspace, args: seq<Bytes>)
    requires |args| >= 2
    ensures var e, options := RunString(CSet, ks, args), args[2..];
            var nx, xx := Given(options, "NX"), Given(options, "XX");
            e == if !OnlyPolicies(options) || (nx && xx) then Unchanged(ks, SyntaxError())
                 else if (nx && args[0] in ks) || (xx && args[0] !in ks) then Done(ks, NullBulk)
                 else Done(ks[args[0] := Str(Some(args[1]))], OkReply())
  {
    hide Given, OnlyPolicies, SetPolicy, SyntaxError;
    PolicyIff(args[2..], Upsert);
  }

  /** SETNX binds an absent key, whatever type a present one has, and is logged either way. */
  lemma SetNxIff(ks: Keyspace, key: Bytes, value: Bytes)
    ensures RunString(CSetNx, ks, [key, value]) ==
            if key in ks then Done(ks, Int(0)) else Done(ks[key := Str(Some(value))], Int(1))
  {
  }

  /** GETSET answers what GET answers, and binds the key unless that is an error; it is logged exactly
      if there was a string. */
  lemma GetSetIff(ks: Keyspace, key: Bytes, value: Bytes)
    ensures var e := RunString(CGetSet, ks, [key, value]);
      && e.answer == Get(ks, key) && (e.logged <==> HasText(ks, key))
      && e.ks == if OtherType(ks, key) then ks else ks[key := Str(Some(value))]
  {
    hide WrongType;
  }

  /** SETRANGE leaves the written bytes at the offset, the old ones elsewhere and zeros between, and
      answers how many there are; what makes it panic or refuse changes nothing. */
  lemma SetRangeIff(ks: Keyspace, key: Bytes, offset: int, value: Bytes)
    requires IsInt64(offset)
    ensures var e, text := RunString(CSetRange, ks, [key, FormatInt(offset), value]), Text(ks, key);
            if OtherType(ks, key) then e == Unchanged(ks, WrongType())
            else if (offset < 0 && value != []) || (|text| < offset && offset > 0x1_0000_0000_0000) then
              e == Unchanged(ks, UnknownError())
            else
              && key in e.ks && e.ks == ks[key := e.ks[key]] && e.ks[key].Str? && e.logged
              && (e.ks[key] == Str(None) <==> !HasText(ks, key) && offset <= 0 && value == [])
              && var after := Text(e.ks, key);
                 && e.answer == Plain(Int(|after|))
                 && |after| == (if value == [] && offset < |text| then |text|
                                else if offset + |value| > |text| then offset + |value| else |text|)
                 && forall i :: 0 <= i < |after| ==>
                      after[i] == if offset <= i < offset + |value| then value[i - offset]
                                  else if i < |text| then text[i] else '\0'
  {
    hide WrongType, UnknownError, FormatInt, ParseInt, Overwritten;
    ParseIntOfFormatInt(offset);
    if offset >= 0 {
      OverwrittenIs(Text(ks, key), offset, value);
    }
  }

  /** GETRANGE answers the bytes between two bounds, both included and counted from the end if negative,
      and nil if there are none to speak of: no string, a bound before it, the first past it, or the
      first more than one past the second. */
  lemma GetRangeMeans(ks: Keyspace, key: Bytes, first: Bytes, last: Bytes)
    ensures var e, text := RunString(CGetRange, ks, [key, first, last]), Text(ks, key);
            if ParseInt(first) == None || ParseInt(last) == None then e == Unchanged(ks, Err("strconv.ParseInt"))
            else if OtherType(ks, key) then e == Unchanged(ks, WrongType())
            else
              var lo, hi := FromEnd(ParseInt(first).value, |text|), FromEnd(ParseInt(last).value, |text|);
              e == Unchanged(ks, if lo < 0 || lo >= |text| || hi < 0 || lo > hi + 1 then NullBulk
                                 else Bulk(Between(text, lo, hi)))
  {
    hide ParseInt, Between, WrongType;
    if HasText(ks, key) && ParseInt(first).Some? && ParseInt(last).Some? {
      GetRangeIff(ks, [key, first, last], Text(ks, key));
    }
  }
}
