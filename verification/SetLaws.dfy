/** The commands of set.go in terms of the members that a set has before and after. */
module SetLaws {
  import opened Bytes
  import opened Reply
  import opened Commands
  import opened SetAlgebra

  predicate OtherType(ks: Keyspace, key: Bytes) {
    key in ks && !ks[key].Set?
  }

  ghost predicate SameElsewhere(a: Keyspace, b: Keyspace, key: Bytes) {
    forall k :: k != key ==> (k in a <==> k in b) && (k in a ==> a[k] == b[k])
  }

  /** SADD adds the members it is given and answers how many are new, each counted once. */
  lemma SAddIff(ks: Keyspace, args: seq<Bytes>, draw: seq<Bytes>)
    requires |args| >= 2
    ensures var e, key, before := RunSet(CSAdd, ks, args, draw), args[0], MembersAt(ks, args[0]);
            if OtherType(ks, key) then e == Unchanged(ks, WrongType())
            else
              && key in e.ks && e.ks[key].Set? && SameElsewhere(e.ks, ks, key) && e.logged
              && (forall v :: v in MembersAt(e.ks, key) <==> v in before || v in args[1..])
              && e.answer == Plain(Int(|set v | v in args[1..] && v !in before|))
  {
    hide WrongType;
    var before, added := MembersAt(ks, args[0]), SetOf(args[1..]);
    var new' := set v | v in args[1..] && v !in before;
    assert before + added == before + new' && before !! new';
  }

  /** SREM takes away the members it is given, and the key with the last of them; it answers how many
      were there, each counted once, and is logged exactly if any was. */
  lemma SRemIff(ks: Keyspace, args: seq<Bytes>, draw: seq<Bytes>)
    requires |args| >= 2
    ensures var e, key, before := RunSet(CSRem, ks, args, draw), args[0], MembersAt(ks, args[0]);
            if OtherType(ks, key) then e == Unchanged(ks, WrongType())
            else if key !in ks then e == Unchanged(ks, Int(0))
            else
              var gone := set v | v in before && v in args[1..];
              && (forall v :: v in MembersAt(e.ks, key) <==> v in before && v !in args[1..])
              && (key in e.ks <==> MembersAt(e.ks, key) != {}) && (key in e.ks ==> e.ks[key].Set?)
              && SameElsewhere(e.ks, ks, key)
              && e.answer == Plain(Int(|gone|)) && (e.logged <==> gone != {})
  {
    hide WrongType;
    Taken(MembersAt(ks, args[0]), args[1..]);
  }

  lemma Taken(before: set<Bytes>, named: seq<Bytes>)
    ensures var gone := set v | v in before && v in named;
            |before| - |before - SetOf(named)| == |gone| && (gone != {} <==> |gone| > 0)
  {
    var gone := set v | v in before && v in named;
    assert before == (before - SetOf(named)) + gone && before - SetOf(named) !! gone;
  }

  /** The reading commands. */
  lemma ReadsIff(ks: Keyspace, key: Bytes, v: Bytes, draw: seq<Bytes>)
    ensures var m := MembersAt(ks, key);
            if OtherType(ks, key) then
              && RunSet(CSIsMember, ks, [key, v], draw) == Unchanged(ks, WrongType())
              && RunSet(CSCard, ks, [key], draw) == Unchanged(ks, WrongType())
              && RunSet(CSMembers, ks, [key], draw) == Unchanged(ks, WrongType())
            else
              && RunSet(CSIsMember, ks, [key, v], draw) == Unchanged(ks, Int(if v in m then 1 else 0))
              && RunSet(CSCard, ks, [key], draw) == Unchanged(ks, Int(|m|))
              && RunSet(CSMembers, ks, [key], draw) ==
                 if key in ks then Effect(ks, Members(m), false) else Unchanged(ks, EmptyMultiBulk)
  {
    hide WrongType;
  }

  // ---- random choice

  ghost predicate Distinct(s: seq<Bytes>) {
    forall i, j :: 0 <= i < j < |s| ==> s[i] != s[j]
  }

  /** SPOP takes as many different members as it is asked for, or all of them, lists them, leaves the
      others, and leaves the key even if there are none; and it can take any such choice. */
  lemma SPopIff(ks: Keyspace, args: seq<Bytes>, draw: seq<Bytes>)
    requires 1 <= |args| <= 2
    ensures var key, m := args[0], MembersAt(ks, args[0]);
            var count := if |args| == 1 then Some(1) else ParseInt(args[1]);
            var n := if count.Some? && count.value <= |m| then count.value else |m|;
            var e, possible := RunSet(CSPop, ks, args, draw), Fits(DrawsOf(OnSet(CSPop), ks, args), draw);
            if OtherType(ks, key) then e == Unchanged(ks, WrongType())
            else if key !in ks then e == Unchanged(ks, NullBulk)
            else if count == None || count.value <= 0 then e == Unchanged(ks, OutOfRange())
            else
              && (possible <==> |draw| == n && Distinct(draw) && forall v :: v in draw ==> v in m)
              && e.answer == Plain(MultiBulk(Present(draw))) && (e.logged <==> n > 0)
              && key in e.ks && e.ks[key].Set? && SameElsewhere(e.ks, ks, key)
              && forall v :: v in MembersAt(e.ks, key) <==> v in m && v !in draw
  {
    hide WrongType, ParseInt, OutOfRange;
  }

  /** SRANDMEMBER answers one member without a count, different ones for a positive count, as many as
      there are at most, and for a negative count any, so many; it changes nothing. */
  lemma SRandMemberIff(ks: Keyspace, args: seq<Bytes>, draw: seq<Bytes>)
    requires 1 <= |args| <= 2
    ensures var key, m := args[0], MembersAt(ks, args[0]);
            var e, possible := RunSet(CSRandMember, ks, args, draw), Fits(DrawsOf(OnSet(CSRandMember), ks, args), draw);
            if OtherType(ks, key) then e == Unchanged(ks, WrongType())
            else if key !in ks then e == Unchanged(ks, NullBulk)
            else if |args| == 1 then
              possible && m != {} ==> draw != [] && draw[0] in m && e == Unchanged(ks, Bulk(draw[0]))
            else if ParseInt(args[1]) == None then e == Unchanged(ks, NotInteger())
            else
              var count := ParseInt(args[1]).value;
              if count == 0 then e == Unchanged(ks, EmptyMultiBulk)
              else if count < -11_728_124_029_610 then e == Unchanged(ks, UnknownError())
              else
                && e == Unchanged(ks, MultiBulk(Present(draw)))
                && (m != {} && count > 0 ==>
                     (possible <==> |draw| == (if count <= |m| then count else |m|) && Distinct(draw)
                                    && forall v :: v in draw ==> v in m))
                && (m != {} && count < 0 ==> (possible <==> |draw| == -count && forall v :: v in draw ==> v in m))
  {
    hide WrongType, ParseInt, NotInteger, UnknownError;
  }

  // ---- set algebra

  /** SINTER, SUNION and SDIFF over keys none of which has another type list exactly the members that
      are in all of the sets, in some set, and in the first and none of the others. */
  lemma AlgebraMeans(ks: Keyspace, keys: seq<Bytes>, draw: seq<Bytes>)
    requires keys != [] && forall k <- keys :: !OtherType(ks, k)
    ensures var inter, union, diff := RunSet(CSInter, ks, keys, draw), RunSet(CSUnion, ks, keys, draw),
              RunSet(CSDiff, ks, keys, draw);
      && inter.ks == union.ks == diff.ks == ks && !inter.logged && !union.logged && !diff.logged
      && (forall v :: v in Listed(inter.answer) <==> forall k :: k in keys ==> v in MembersAt(ks, k))
      && (forall v :: v in Listed(union.answer) <==> exists k :: k in keys && v in MembersAt(ks, k))
      && (forall v :: v in Listed(diff.answer) <==>
            v in MembersAt(ks, keys[0]) && forall k :: k in keys[1..] ==> v !in MembersAt(ks, k))
  {
    hide ExecAlgebra, WrongType, MembersAt, Belongs;
    forall op: Algebra
      ensures var e := ExecAlgebra(ks, keys, op);
              e.ks == ks && !e.logged && forall v :: v in Listed(e.answer) <==> Belongs(ks, keys, op, v)
    {
      assert forall i :: 0 <= i < |keys| ==> keys[i] in keys;
      AlgebraIff(ks, keys, op);
      NoWrongType(ks, keys, op);
    }
    forall v {
      BelongsByKey(ks, keys, v);
    }
  }

  lemma BelongsByKey(ks: Keyspace, keys: seq<Bytes>, v: Bytes)
    requires keys != []
    ensures Belongs(ks, keys, Inter, v) <==> forall k :: k in keys ==> v in MembersAt(ks, k)
    ensures Belongs(ks, keys, Union, v) <==> exists k :: k in keys && v in MembersAt(ks, k)
    ensures Belongs(ks, keys, Diff, v) <==>
            v in MembersAt(ks, keys[0]) && forall k :: k in keys[1..] ==> v !in MembersAt(ks, k)
  {
    hide MembersAt;
    assert forall i :: 1 <= i < |keys| ==> keys[i] == keys[1..][i - 1];
    assert forall i :: 0 <= i < |keys| - 1 ==> keys[1..][i] == keys[i + 1];
  }

  /** The storing forms store what the others list, under a key that may hold anything; with nothing
      to list they remove it, which is not logged. */
  lemma StoreIff(ks: Keyspace, dest: Bytes, keys: seq<Bytes>, draw: seq<Bytes>, op: Algebra)
    requires keys != []
    ensures var e := RunSet(match op case Inter => CSInterStore case Union => CSUnionStore case Diff => CSDiffStore,
                            ks, [dest] + keys, draw);
            var listed := RunSet(match op case Inter => CSInter case Union => CSUnion case Diff => CSDiff,
                                 ks, keys, draw);
            match listed.answer
            case Members(m) => e == Done(ks[dest := Set(m)], Int(|m|))
            case Plain(EmptyMultiBulk) =>
              e == Effect(ks - {dest}, Plain(if op == Union then EmptyMultiBulk else Int(0)), false)
            case _ => e == Unchanged(ks, WrongType()) == listed
  {
    hide WrongType, ScanKeys;
    assert ([dest] + keys)[1..] == keys;
    ScanEnds(ks, keys, op, true, None);
    assert WrongType() != EmptyMultiBulk by { WrongTypeIsErr(); }
  }

  lemma WrongTypeIsErr()
    ensures WrongType().Err?
  {
  }

  /** Only a union can end with nothing found at all, and only the others end early. */
  lemma {:induction false} ScanEnds(ks: Keyspace, keys: seq<Bytes>, op: Algebra, first: bool, acc: Option<set<Bytes>>)
    requires op != Union && acc == None ==> first && keys != []
    ensures var r := ScanKeys(ks, keys, op, first, acc); (r.Nothing? ==> op == Union) && (r.Emptied? ==> op != Union)
    decreases keys
  {
    if keys != [] {
      var f := GetAsSet(ks, keys[0]);
      if f.NoSet? && (op == Union || (op == Diff && !first)) {
        ScanEnds(ks, keys[1..], op, false, acc);
      } else if f.ASet? {
        ScanAfter(ks, keys, op, first, acc);
      }
    }
  }

  lemma {:induction false} ScanAfter(ks: Keyspace, keys: seq<Bytes>, op: Algebra, first: bool, acc: Option<set<Bytes>>)
    requires keys != [] && GetAsSet(ks, keys[0]).ASet?
    ensures var r := ScanKeys(ks, keys, op, first, acc); !r.Nothing? && (r.Emptied? ==> op != Union)
    decreases keys
  {
    var s := GetAsSet(ks, keys[0]).members;
    var next := if acc == None then s else match op
      case Inter => acc.value * s
      case Union => acc.value + s
      case Diff => acc.value - s;
    ScanOn(ks, keys[1..], op, next);
  }

  lemma {:induction false} ScanOn(ks: Keyspace, keys: seq<Bytes>, op: Algebra, acc: set<Bytes>)
    ensures var r := ScanKeys(ks, keys, op, false, Some(acc)); !r.Nothing? && (r.Emptied? ==> op != Union)
    decreases keys
  {
    if keys != [] {
      var f := GetAsSet(ks, keys[0]);
      if f.NoSet? {
        ScanOn(ks, keys[1..], op, acc);
      } else if f.ASet? {
        ScanOn(ks, keys[1..], op, match op
          case Inter => acc * f.members
          case Union => acc + f.members
          case Diff => acc - f.members);
      }
    }
  }
}
