/** The algebra commands (SINTER, SUNION, SDIFF) against plain set algebra. */
module SetAlgebra {
  import opened Bytes
  import opened Reply
  import opened Commands

  /** The set at a key, absent keys being empty. */
  function MembersAt(ks: Keyspace, key: Bytes): set<Bytes> {
    if key in ks && ks[key].Set? then ks[key].members else {}
  }

  /** What each command is for, member by member: in all of the sets, in some set, or in the
      first and none of the others. */
  ghost predicate Belongs(ks: Keyspace, keys: seq<Bytes>, op: Algebra, v: Bytes)
    requires keys != []
  {
    match op
    case Inter => forall i :: 0 <= i < |keys| ==> v in MembersAt(ks, keys[i])
    case Union => exists i :: 0 <= i < |keys| && v in MembersAt(ks, keys[i])
    case Diff => v in MembersAt(ks, keys[0]) && forall i :: 1 <= i < |keys| ==> v !in MembersAt(ks, keys[i])
  }

  ghost predicate Nobody(ks: Keyspace, keys: seq<Bytes>, op: Algebra)
    requires keys != []
  {
    forall v :: !Belongs(ks, keys, op, v)
  }

  /** The k-th key settles an intersection or a difference: it is absent where that decides, or
      nothing is left once it has been taken into account. */
  ghost predicate Settled(ks: Keyspace, keys: seq<Bytes>, op: Algebra, k: nat)
    requires k < |keys|
  {
    match op
    case Inter => GetAsSet(ks, keys[k]) == NoSet || (k > 0 && Nobody(ks, keys[..k + 1], op))
    case Union => false
    case Diff => if k == 0 then GetAsSet(ks, keys[0]) == NoSet
                 else GetAsSet(ks, keys[k]) != NoSet && Nobody(ks, keys[..k + 1], op)
  }

  /** A key of the wrong type is reached: no key before it settles the matter. */
  ghost predicate MeetsWrongType(ks: Keyspace, keys: seq<Bytes>, op: Algebra, k: nat)
    requires k < |keys|
  {
    GetAsSet(ks, keys[k]) == NotASet && forall j :: 0 <= j < k ==> !Settled(ks, keys, op, j)
  }

  /** What the loop has accumulated after the keys in done. */
  ghost predicate Accumulated(ks: Keyspace, past: seq<Bytes>, op: Algebra, acc: Option<set<Bytes>>) {
    && (past == [] ==> acc == None)
    && (past != [] ==>
          && (acc == None ==> op == Union && forall i :: 0 <= i < |past| ==> MembersAt(ks, past[i]) == {})
          && (acc.Some? ==> forall v :: v in acc.value <==> Belongs(ks, past, op, v)))
  }

  lemma BelongsNext(ks: Keyspace, past: seq<Bytes>, key: Bytes, op: Algebra, v: Bytes)
    requires past != []
    ensures Belongs(ks, past + [key], op, v) <==>
      match op
      case Inter => Belongs(ks, past, op, v) && v in MembersAt(ks, key)
      case Union => Belongs(ks, past, op, v) || v in MembersAt(ks, key)
      case Diff => Belongs(ks, past, op, v) && v !in MembersAt(ks, key)
  {
    var all := past + [key];
    assert all[|past|] == key;
    assert forall i :: 0 <= i < |past| ==> all[i] == past[i];
    if op.Union? && Belongs(ks, past, op, v) {
      var i :| 0 <= i < |past| && v in MembersAt(ks, past[i]);
      assert v in MembersAt(ks, all[i]);
    }
  }

  /** Once a member is out of an intersection or difference it stays out. */
  lemma {:induction false} StaysOut(ks: Keyspace, past: seq<Bytes>, rest: seq<Bytes>, op: Algebra, v: Bytes)
    requires past != [] && !op.Union? && !Belongs(ks, past, op, v)
    ensures !Belongs(ks, past + rest, op, v)
    decreases rest
  {
    if rest == [] {
      assert past + rest == past;
    } else {
      BelongsNext(ks, past, rest[0], op, v);
      StaysOut(ks, past + [rest[0]], rest[1..], op, v);
      assert past + rest == past + [rest[0]] + rest[1..];
    }
  }

  /** What a loop that did not fail lists. */
  function Outcome(r: Scanned): set<Bytes> {
    if r.Result? then r.members else {}
  }

  lemma AccumulateFirst(ks: Keyspace, key: Bytes, op: Algebra)
    requires GetAsSet(ks, key).ASet?
    ensures Accumulated(ks, [key], op, Some(GetAsSet(ks, key).members))
  {
    var m := GetAsSet(ks, key).members;
    forall v ensures v in m <==> Belongs(ks, [key], op, v) {
      assert [key][0] == key;
    }
  }

  lemma Accumulate(ks: Keyspace, past: seq<Bytes>, key: Bytes, op: Algebra, acc: Option<set<Bytes>>)
    requires past != [] && Accumulated(ks, past, op, acc) && acc.Some? && GetAsSet(ks, key) != NotASet
    requires op == Inter ==> GetAsSet(ks, key).ASet?
    ensures var m := MembersAt(ks, key);
            Accumulated(ks, past + [key], op, Some(match op
              case Inter => acc.value * m
              case Union => acc.value + m
              case Diff => acc.value - m))
  {
    hide Belongs, MembersAt;
    forall v {
      BelongsNext(ks, past, key, op, v);
    }
  }

  lemma AccumulateNone(ks: Keyspace, past: seq<Bytes>, key: Bytes, op: Algebra)
    requires Accumulated(ks, past, op, None) && op == Union
    ensures GetAsSet(ks, key) == NoSet ==> Accumulated(ks, past + [key], op, None)
    ensures GetAsSet(ks, key).ASet? ==> Accumulated(ks, past + [key], op, Some(GetAsSet(ks, key).members))
  {
    var all := past + [key];
    assert forall i :: 0 <= i < |past| ==> all[i] == past[i];
    assert all[|past|] == key;
  }

  lemma NextAccumulated(ks: Keyspace, past: seq<Bytes>, key: Bytes, op: Algebra, acc: Option<set<Bytes>>)
    requires Accumulated(ks, past, op, acc) && GetAsSet(ks, key) != NotASet
    requires GetAsSet(ks, key) == NoSet ==> op == Union || (op == Diff && past != [])
    ensures var f := GetAsSet(ks, key);
            Accumulated(ks, past + [key], op,
              if f.NoSet? then acc
              else if acc == None then Some(f.members)
              else Some(match op
                        case Inter => acc.value * f.members
                        case Union => acc.value + f.members
                        case Diff => acc.value - f.members))
  {
    hide Belongs;
    if past == [] {
      assert past + [key] == [key];
    }
    if acc == None {
      if past == [] && GetAsSet(ks, key).ASet? {
        AccumulateFirst(ks, key, op);
      } else {
        AccumulateNone(ks, past, key, op);
      }
    } else {
      Accumulate(ks, past, key, op, acc);
      assert acc.value + {} == acc.value && acc.value - {} == acc.value;
    }
  }

  /** Unless the loop fails, what it lists is what belongs, over all keys, even those after an
      early exit. */
  lemma {:induction false} ScanLists(ks: Keyspace, past: seq<Bytes>, rest: seq<Bytes>, op: Algebra,
                                     acc: Option<set<Bytes>>)
    requires past + rest != [] && Accumulated(ks, past, op, acc)
    ensures var r := ScanKeys(ks, rest, op, past == [], acc);
            r != Failed ==> forall v :: v in Outcome(r) <==> Belongs(ks, past + rest, op, v)
    decreases rest
  {
    if rest == [] {
      assert past + rest == past;
    } else {
      var key, f := rest[0], GetAsSet(ks, rest[0]);
      var more := past + [key];
      assert past + rest == more + rest[1..];
      if f.NoSet? && (op == Inter || (op == Diff && past == [])) {
        forall v ensures !Belongs(ks, past + rest, op, v) {
          assert (past + rest)[|past|] == key;
        }
      } else if !f.NotASet? {
        var next := if f.NoSet? then acc else if acc == None then Some(f.members) else Some(match op
          case Inter => acc.value * f.members
          case Union => acc.value + f.members
          case Diff => acc.value - f.members);
        NextAccumulated(ks, past, key, op, acc);
        if f.ASet? && acc.Some? && op != Union && next.value == {} {
          forall v ensures !Belongs(ks, past + rest, op, v) {
            StaysOut(ks, more, rest[1..], op, v);
          }
        } else {
          ScanLists(ks, more, rest[1..], op, next);
        }
      }
    }
  }

  /** The loop settles at the key after past. */
  lemma SettlesNow(ks: Keyspace, past: seq<Bytes>, rest: seq<Bytes>, op: Algebra, acc: Option<set<Bytes>>)
    requires rest != [] && Accumulated(ks, past, op, acc) && GetAsSet(ks, rest[0]) != NotASet
    ensures Settled(ks, past + rest, op, |past|) <==>
      var f := GetAsSet(ks, rest[0]);
      || (f.NoSet? && (op == Inter || (op == Diff && past == [])))
      || (f.ASet? && acc.Some? && op != Union
            && (match op case Inter => acc.value * f.members case Union => {} case Diff => acc.value - f.members) == {})
  {
    hide Belongs;
    var key, f := rest[0], GetAsSet(ks, rest[0]);
    assert (past + rest)[|past|] == key;
    assert (past + rest)[..|past| + 1] == past + [key];
    if past != [] && acc.Some? && f.ASet? && op != Union {
      var next := match op case Inter => acc.value * f.members case Union => {} case Diff => acc.value - f.members;
      Accumulate(ks, past, key, op, acc);
      assert forall v :: v in next <==> Belongs(ks, past + [key], op, v);
    }
  }

  /** The loop fails exactly if it meets a key of the wrong type before the matter is settled. */
  lemma {:induction false} ScanFailsIff(ks: Keyspace, past: seq<Bytes>, rest: seq<Bytes>, op: Algebra,
                                        acc: Option<set<Bytes>>)
    requires Accumulated(ks, past, op, acc)
    requires forall j :: 0 <= j < |past| ==> GetAsSet(ks, past[j]) != NotASet && !Settled(ks, past + rest, op, j)
    ensures ScanKeys(ks, rest, op, past == [], acc) == Failed <==>
      exists k :: 0 <= k < |past + rest| && MeetsWrongType(ks, past + rest, op, k)
    decreases rest
  {
    hide Belongs, Settled, MembersAt;
    var all := past + rest;
    if rest == [] {
      assert all == past;
    } else {
      var key, f := rest[0], GetAsSet(ks, rest[0]);
      var more := past + [key];
      assert all[|past|] == key && all == more + rest[1..];
      if f.NotASet? {
        assert MeetsWrongType(ks, all, op, |past|);
      } else {
        SettlesNow(ks, past, rest, op, acc);
        if Settled(ks, all, op, |past|) {
          forall k | 0 <= k < |all| ensures !MeetsWrongType(ks, all, op, k) {
            assert k < |past| ==> all[k] == past[k];
          }
        } else {
          var next := if f.NoSet? then acc else if acc == None then Some(f.members) else Some(match op
            case Inter => acc.value * f.members
            case Union => acc.value + f.members
            case Diff => acc.value - f.members);
          NextAccumulated(ks, past, key, op, acc);
          ScanFailsIff(ks, more, rest[1..], op, next);
        }
      }
    }
  }

  /** What an answer lists: the empty reply lists nothing. */
  function Listed(a: Answer): set<Bytes> {
    if a.Members? then a.members else {}
  }

  /** SINTER, SUNION and SDIFF over any keys leave the keyspace alone; they answer the wrong-type
      error exactly if a key of the wrong type comes before the matter is settled, and
      otherwise list exactly the intersection, the union or the left difference. */
  lemma AlgebraIff(ks: Keyspace, keys: seq<Bytes>, op: Algebra)
    requires keys != []
    ensures var e := ExecAlgebra(ks, keys, op);
            && e.ks == ks && !e.logged
            && (e.answer == Plain(WrongType()) <==> exists k :: 0 <= k < |keys| && MeetsWrongType(ks, keys, op, k))
            && (e.answer != Plain(WrongType()) ==>
                  && (e.answer.Members? || e.answer == Plain(EmptyMultiBulk))
                  && forall v :: v in Listed(e.answer) <==> Belongs(ks, keys, op, v))
  {
    hide Belongs, MeetsWrongType, ScanKeys;
    assert [] + keys == keys;
    ScanFailsIff(ks, [], keys, op, None);
    ScanLists(ks, [], keys, op, None);
  }

  /** So with no key of the wrong type there is no error. */
  lemma NoWrongType(ks: Keyspace, keys: seq<Bytes>, op: Algebra)
    requires keys != [] && forall k :: 0 <= k < |keys| ==> GetAsSet(ks, keys[k]) != NotASet
    ensures ExecAlgebra(ks, keys, op).answer != Plain(WrongType())
    ensures forall v :: v in Listed(ExecAlgebra(ks, keys, op).answer) <==> Belongs(ks, keys, op, v)
  {
    AlgebraIff(ks, keys, op);
  }

  // ---- when an empty set is kept

  /** The loop ends with an empty set that it has kept: nothing is taken from a first, empty set, or
      only empty sets are united. */
  predicate KeepsEmpty(ks: Keyspace, keys: seq<Bytes>, op: Algebra)
    requires keys != []
  {
    match op
    case Inter => |keys| == 1 && GetAsSet(ks, keys[0]) == ASet({})
    case Union => (exists i :: 0 <= i < |keys| && GetAsSet(ks, keys[i]).ASet?)
                  && forall i :: 0 <= i < |keys| ==> MembersAt(ks, keys[i]) == {}
    case Diff => GetAsSet(ks, keys[0]) == ASet({}) && forall i :: 1 <= i < |keys| ==> GetAsSet(ks, keys[i]) == NoSet
  }

  lemma {:induction false} InterGoesOn(ks: Keyspace, rest: seq<Bytes>, acc: set<Bytes>)
    ensures ScanKeys(ks, rest, Inter, false, Some(acc)) == Result({}) <==> rest == [] && acc == {}
    decreases rest
  {
    if rest != [] {
      match GetAsSet(ks, rest[0])
      case ASet(s) => InterGoesOn(ks, rest[1..], acc * s);
      case _ =>
    }
  }

  lemma {:induction false} DiffGoesOn(ks: Keyspace, rest: seq<Bytes>, acc: set<Bytes>)
    ensures ScanKeys(ks, rest, Diff, false, Some(acc)) == Result({}) <==>
      acc == {} && forall i :: 0 <= i < |rest| ==> GetAsSet(ks, rest[i]) == NoSet
    decreases rest
  {
    if rest != [] {
      assert forall i :: 0 < i < |rest| ==> rest[i] == rest[1..][i - 1];
      match GetAsSet(ks, rest[0])
      case ASet(s) => DiffGoesOn(ks, rest[1..], acc - s);
      case NoSet => DiffGoesOn(ks, rest[1..], acc);
      case NotASet =>
    }
  }

  lemma {:induction false} UnionGoesOn(ks: Keyspace, rest: seq<Bytes>, first: bool, acc: Option<set<Bytes>>)
    ensures var r := ScanKeys(ks, rest, Union, first, acc);
            r != Failed ==> (r.Result? <==> acc.Some? || exists i :: 0 <= i < |rest| && GetAsSet(ks, rest[i]).ASet?)
    decreases rest
  {
    if rest != [] {
      assert forall i :: 0 < i < |rest| ==> rest[i] == rest[1..][i - 1];
      match GetAsSet(ks, rest[0])
      case ASet(s) => UnionGoesOn(ks, rest[1..], false, Some(if acc == None then s else acc.value + s));
      case NoSet => UnionGoesOn(ks, rest[1..], false, acc);
      case NotASet =>
    }
  }

  lemma ScanKeepsEmptyIff(ks: Keyspace, keys: seq<Bytes>, op: Algebra)
    requires keys != [] && ScanKeys(ks, keys, op, true, None) != Failed
    ensures ScanKeys(ks, keys, op, true, None) == Result({}) <==> KeepsEmpty(ks, keys, op)
  {
    var f := GetAsSet(ks, keys[0]);
    match op
    case Inter =>
      if f.ASet? {
        InterGoesOn(ks, keys[1..], f.members);
      }
    case Diff =>
      if f.ASet? {
        DiffGoesOn(ks, keys[1..], f.members);
        assert forall i :: 0 < i < |keys| ==> keys[i] == keys[1..][i - 1];
      }
    case Union =>
      UnionGoesOn(ks, keys, true, None);
      UnionIsEmpty(ks, keys);
  }

  lemma UnionIsEmpty(ks: Keyspace, keys: seq<Bytes>)
    requires keys != [] && ScanKeys(ks, keys, Union, true, None) != Failed
    ensures Outcome(ScanKeys(ks, keys, Union, true, None)) == {} <==>
      forall i :: 0 <= i < |keys| ==> MembersAt(ks, keys[i]) == {}
  {
    hide ScanKeys, MembersAt;
    assert [] + keys == keys;
    ScanLists(ks, [], keys, Union, None);
    var out := Outcome(ScanKeys(ks, keys, Union, true, None));
    forall i | 0 <= i < |keys| ensures MembersAt(ks, keys[i]) <= out {
      forall v | v in MembersAt(ks, keys[i]) ensures v in out {
        assert Belongs(ks, keys, Union, v);
      }
    }
    forall v | v in out ensures exists i :: 0 <= i < |keys| && v in MembersAt(ks, keys[i]) {
      assert Belongs(ks, keys, Union, v);
    }
  }

  /** Nothing is left to store: no key of the wrong type is met, nothing belongs to the result, and
      no empty set is kept. */
  ghost predicate NothingToStore(ks: Keyspace, keys: seq<Bytes>, op: Algebra)
    requires keys != []
  {
    && Nobody(ks, keys, op) && !KeepsEmpty(ks, keys, op)
    && !exists k :: 0 <= k < |keys| && MeetsWrongType(ks, keys, op, k)
  }

  /** The loop ends without a set to store exactly then. */
  lemma StoresNothingIff(ks: Keyspace, keys: seq<Bytes>, op: Algebra)
    requires keys != []
    ensures var r := ScanKeys(ks, keys, op, true, None);
            r.Emptied? || r.Nothing? <==> NothingToStore(ks, keys, op)
  {
    hide Belongs, MeetsWrongType, ScanKeys, KeepsEmpty;
    assert [] + keys == keys;
    ScanFailsIff(ks, [], keys, op, None);
    ScanLists(ks, [], keys, op, None);
    var r := ScanKeys(ks, keys, op, true, None);
    if r != Failed {
      ScanKeepsEmptyIff(ks, keys, op);
      assert Nobody(ks, keys, op) <==> Outcome(r) == {};
    }
  }

  /** While no stored set is empty, it is enough that nothing belongs to the result. */
  lemma StoresNothingSimply(ks: Keyspace, keys: seq<Bytes>, op: Algebra)
    requires keys != [] && forall k :: k in ks && ks[k].Set? ==> ks[k].members != {}
    ensures NothingToStore(ks, keys, op) <==>
      Nobody(ks, keys, op) && !exists k :: 0 <= k < |keys| && MeetsWrongType(ks, keys, op, k)
  {
    hide Nobody, MeetsWrongType;
  }
}
