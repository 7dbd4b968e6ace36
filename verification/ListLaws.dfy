/** The commands of list.go in terms of what LRANGE 0 -1 lists. */
module ListLaws {
  import opened Bytes
  import opened Reply
  import opened Sequences
  import opened Commands
  import LinkedLists
  import opened LogCompleteness

  /** The elements at a key that holds a list or nothing. */
  function Elems(ks: Keyspace, key: Bytes): seq<Bytes> {
    if key in ks && ks[key].List? then ks[key].elems else []
  }

  predicate OtherType(ks: Keyspace, key: Bytes) {
    key in ks && !ks[key].List?
  }

  ghost predicate SameElsewhere(a: Keyspace, b: Keyspace, key: Bytes) {
    forall k :: k != key ==> (k in a <==> k in b) && (k in a ==> a[k] == b[k])
  }

  /** The key holds these elements, or nothing if there are none. */
  predicate Holds(ks: Keyspace, key: Bytes, elems: seq<Bytes>) {
    if elems == [] then key !in ks else key in ks && ks[key] == List(elems)
  }

  // ---- pushing

  lemma {:induction false} ReverseAt<T>(s: seq<T>, i: nat)
    requires i < |s|
    ensures Reverse(s)[i] == s[|s| - 1 - i]
  {
    if i < |s| - 1 {
      ReverseAt(s[1..], i);
    }
  }

  /** RPUSH puts the values behind the list in their order, LPUSH before it with the last value first;
      the X forms leave an absent key alone. The answer is the new length. */
  lemma PushIff(ks: Keyspace, args: seq<Bytes>, c: ListCommand)
    requires |args| >= 2 && (c == CLPush || c == CRPush || c == CLPushX || c == CRPushX)
    ensures var e, key, values, n := RunList(c, ks, args), args[0], args[1..], |args| - 1;
            if OtherType(ks, key) then e == Unchanged(ks, WrongType())
            else if key !in ks && (c == CLPushX || c == CRPushX) then e == Unchanged(ks, Int(0))
            else
              var before, after := Elems(ks, key), Elems(e.ks, key);
              && e.logged && e.answer == Plain(Int(|after|)) && SameElsewhere(e.ks, ks, key) && Holds(e.ks, key, after)
              && |after| == |before| + n
              && if c == CRPush || c == CRPushX then after == before + values
                 else after[n..] == before && forall i :: 0 <= i < n ==> after[i] == values[n - 1 - i]
  {
    hide WrongType, Reverse, Holds, SameElsewhere, ExecPush;
    InFront(Elems(ks, args[0]), args[1..]);
    Pushes(ks, args, c == CLPush || c == CLPushX, c == CLPushX || c == CRPushX);
  }

  lemma Pushes(ks: Keyspace, args: seq<Bytes>, front: bool, mustExist: bool)
    requires |args| >= 2
    ensures var e, key, values := ExecPush(ks, args, front, mustExist), args[0], args[1..];
            var before := Elems(ks, key);
            var after := if front then Reverse(values) + before else before + values;
            if OtherType(ks, key) then e == Unchanged(ks, WrongType())
            else if key !in ks && mustExist then e == Unchanged(ks, Int(0))
            else
              && e == Done(ks[key := List(after)], Int(|after|)) && Elems(e.ks, key) == after
              && SameElsewhere(e.ks, ks, key) && Holds(e.ks, key, after)
  {
    hide WrongType, Reverse, Holds, SameElsewhere;
    var before, values := Elems(ks, args[0]), args[1..];
    PutList(ks, args[0], Reverse(values) + before);
    PutList(ks, args[0], before + values);
  }

  lemma PutList(ks: Keyspace, key: Bytes, elems: seq<Bytes>)
    requires |elems| > 0
    ensures var after := ks[key := List(elems)];
            Elems(after, key) == elems && SameElsewhere(after, ks, key) && Holds(after, key, elems)
  {
  }

  lemma InFront(before: seq<Bytes>, values: seq<Bytes>)
    ensures var after := Reverse(values) + before;
            after[|values|..] == before && forall i :: 0 <= i < |values| ==> after[i] == values[|values| - 1 - i]
  {
    hide Reverse;
    forall i | 0 <= i < |values| ensures Reverse(values)[i] == values[|values| - 1 - i] {
      ReverseAt(values, i);
    }
  }

  // ---- popping

  /** LPOP takes the first element and answers it, RPOP the last; the key goes with its last element. */
  lemma PopIff(ks: Keyspace, key: Bytes, c: ListCommand)
    requires ListsNonEmpty(ks) && (c == CLPop || c == CRPop)
    ensures var e, before := RunList(c, ks, [key]), Elems(ks, key);
            if OtherType(ks, key) then e == Unchanged(ks, WrongType())
            else if key !in ks then e == Unchanged(ks, NullBulk)
            else
              && before != [] && e.logged && SameElsewhere(e.ks, ks, key)
              && Holds(e.ks, key, Elems(e.ks, key))
              && if c == CLPop then before == [before[0]] + Elems(e.ks, key) && e.answer == Plain(Bulk(before[0]))
                 else before == Elems(e.ks, key) + [before[|before| - 1]]
                      && e.answer == Plain(Bulk(before[|before| - 1]))
  {
    hide WrongType;
  }

  /** n pops from one end, with what they answer. */
  function PopAll(ks: Keyspace, key: Bytes, n: nat, c: ListCommand): (r: (Keyspace, seq<Answer>))
    requires c == CLPop || c == CRPop
    ensures |r.1| == n
  {
    if n == 0 then (ks, [])
    else
      var e := RunList(c, ks, [key]);
      var r := PopAll(e.ks, key, n - 1, c);
      (r.0, [e.answer] + r.1)
  }

  /** The i-th element from the end that a pop takes. */
  function FromSide(elems: seq<Bytes>, i: nat, c: ListCommand): Bytes
    requires i < |elems|
  {
    if c == CLPop then elems[i] else elems[|elems| - 1 - i]
  }

  lemma {:induction false} PopsInOrder(ks: Keyspace, key: Bytes, n: nat, c: ListCommand)
    requires ListsNonEmpty(ks) && n <= |Elems(ks, key)| && (c == CLPop || c == CRPop)
    ensures forall i :: 0 <= i < n ==> PopAll(ks, key, n, c).1[i] == Plain(Bulk(FromSide(Elems(ks, key), i, c)))
    decreases n
  {
    hide RunList, ListsNonEmpty, Elems, FromSide;
    if n > 0 {
      var e := RunList(c, ks, [key]);
      PopOne(ks, key, c);
      PopsKeep(ks, key, c);
      PopsInOrder(e.ks, key, n - 1, c);
      forall i | 0 <= i < n ensures PopAll(ks, key, n, c).1[i] == Plain(Bulk(FromSide(Elems(ks, key), i, c))) {
        assert i > 0 ==> PopAll(ks, key, n, c).1[i] == PopAll(e.ks, key, n - 1, c).1[i - 1];
      }
    }
  }

  lemma PopOne(ks: Keyspace, key: Bytes, c: ListCommand)
    requires ListsNonEmpty(ks) && Elems(ks, key) != [] && (c == CLPop || c == CRPop)
    ensures var e, n := RunList(c, ks, [key]), |Elems(ks, key)|;
      && e.answer == Plain(Bulk(FromSide(Elems(ks, key), 0, c))) && |Elems(e.ks, key)| == n - 1
      && forall i :: 0 < i < n ==> FromSide(Elems(ks, key), i, c) == FromSide(Elems(e.ks, key), i - 1, c)
  {
    hide RunList, ListsNonEmpty;
    PopIff(ks, key, c);
  }

  lemma PopsKeep(ks: Keyspace, key: Bytes, c: ListCommand)
    requires ListsNonEmpty(ks) && (c == CLPop || c == CRPop)
    ensures ListsNonEmpty(RunList(c, ks, [key]).ks)
  {
    ListsOwe(c, ks, [key]);
  }

  /** A queue and a stack: what RPUSH has put into a free key, LPOP gives back in order and RPOP in
      reverse. */
  lemma QueueAndStack(ks: Keyspace, key: Bytes, values: seq<Bytes>)
    requires ListsNonEmpty(ks) && key !in ks && values != []
    ensures var pushed, n := RunList(CRPush, ks, [key] + values).ks, |values|;
      && (forall i :: 0 <= i < n ==> PopAll(pushed, key, n, CLPop).1[i] == Plain(Bulk(values[i])))
      && (forall i :: 0 <= i < n ==> PopAll(pushed, key, n, CRPop).1[i] == Plain(Bulk(values[n - 1 - i])))
  {
    hide RunList, ListsNonEmpty, Elems;
    var pushed := RunList(CRPush, ks, [key] + values).ks;
    QueuePushed(ks, key, values);
    PopsInOrder(pushed, key, |values|, CLPop);
    PopsInOrder(pushed, key, |values|, CRPop);
  }

  lemma QueuePushed(ks: Keyspace, key: Bytes, values: seq<Bytes>)
    requires ListsNonEmpty(ks) && key !in ks && values != []
    ensures var pushed := RunList(CRPush, ks, [key] + values).ks;
            Elems(pushed, key) == values && ListsNonEmpty(pushed)
  {
    hide ListsNonEmpty, ExecPush;
    var args := [key] + values;
    assert args[1..] == values && args[0] == key && [] + values == values;
    Pushes(ks, args, false, false);
    PushesKeep(ks, args);
  }

  lemma PushesKeep(ks: Keyspace, args: seq<Bytes>)
    requires ListsNonEmpty(ks) && |args| >= 2
    ensures ListsNonEmpty(RunList(CRPush, ks, args).ks)
  {
    ListsOwe(CRPush, ks, args);
  }

  /** RPOPLPUSH is RPOP and then LPUSH of what it has answered, source and destination being the same
      list or not, unless there is nothing to pop or the destination holds another type. */
  lemma RPopLPushIff(ks: Keyspace, source: Bytes, dest: Bytes)
    requires ListsNonEmpty(ks)
    ensures var e, popped := RunList(CRPopLPush, ks, [source, dest]), RunList(CRPop, ks, [source]);
            if OtherType(ks, source) then e == Unchanged(ks, WrongType())
            else if source !in ks then e == Unchanged(ks, NullBulk)
            else if OtherType(ks, dest) then e == Unchanged(ks, WrongType())
            else
              && popped.answer.Plain? && popped.answer.reply.Bulk? && e.answer == popped.answer && e.logged
              && e.ks == RunList(CLPush, popped.ks, [dest, popped.answer.reply.arg]).ks
  {
    hide WrongType;
    var val: Bytes := if source in ks && ks[source].List? then ks[source].elems[|ks[source].elems| - 1] else [];
    var one := [val];
    assert [dest, val][1..] == one && one[1..] == [] && Reverse(one) == [] + one == one;
    assert one + [] == one;
  }

  // ---- LREM

  /** LREM with a positive count n deletes every match in a prefix that holds n of them, or in the whole
      list if there are fewer, and keeps the rest; with a negative count it does so from the end, and
      with 0 it deletes every match. It answers how many went, and is logged if any did. */
  lemma LRemIff(ks: Keyspace, args: seq<Bytes>, count: int, k: nat)
    requires |args| == 3 && ParseInt(args[1]) == Some(count) && k <= |Elems(ks, args[0])|
    requires var c, v := Elems(ks, args[0]), args[2];
      && (count > 0 ==> Count(c[..k], v) <= count && (k == |c| || Count(c[..k], v) == count))
      && (count < 0 ==> Count(c[k..], v) <= -count && (k == 0 || (Count(c[k..], v) == -count && count != MIN_INT64)))
    ensures var e, key, c, v := RunList(CLRem, ks, args), args[0], Elems(ks, args[0]), args[2];
            if OtherType(ks, key) then e == Unchanged(ks, WrongType())
            else if key !in ks then e == Unchanged(ks, Int(0))
            else
              var left := if count > 0 then Without(c[..k], v) + c[k..]
                          else if count < 0 then c[..k] + Without(c[k..], v)
                          else Without(c, v);
              && Holds(e.ks, key, left) && SameElsewhere(e.ks, ks, key)
              && e.answer == Plain(Int(|c| - |left|)) && (e.logged <==> |left| < |c|)
  {
    hide *;
    LRemTakes(ks, args, count);
    RemovedIs(Elems(ks, args[0]), args[2], count, k);
  }

  lemma LRemTakes(ks: Keyspace, args: seq<Bytes>, count: int)
    requires |args| == 3 && ParseInt(args[1]) == Some(count)
    ensures var e, key, c := RunList(CLRem, ks, args), args[0], Elems(ks, args[0]);
            var left := Removed(c, args[2], count);
            if OtherType(ks, key) then e == Unchanged(ks, WrongType())
            else if key !in ks then e == Unchanged(ks, Int(0))
            else
              && Holds(e.ks, key, left) && SameElsewhere(e.ks, ks, key)
              && e.answer == Plain(Int(|c| - |left|)) && (e.logged <==> |left| < |c|)
  {
    hide WrongType, ParseInt, Removed;
  }

  lemma RemovedIs(c: seq<Bytes>, v: Bytes, count: int, k: nat)
    requires k <= |c| && IsInt64(count)
    requires count > 0 ==> Count(c[..k], v) <= count && (k == |c| || Count(c[..k], v) == count)
    requires count < 0 ==> Count(c[k..], v) <= -count && (k == 0 || (Count(c[k..], v) == -count && count != MIN_INT64))
    ensures Removed(c, v, count) ==
            if count > 0 then Without(c[..k], v) + c[k..]
            else if count < 0 then c[..k] + Without(c[k..], v)
            else Without(c, v)
    ensures |Removed(c, v, count)| <= |c|
  {
    hide Without, Count, DropFirst, DropLast;
    if count > 0 {
      DropFirstIs(c, v, count, k);
    } else if count == MIN_INT64 {
      assert Wrap64(-count) == MIN_INT64;
      assert c[..0] + Without(c[0..], v) == Without(c, v) by { assert c[0..] == c; }
    } else if count < 0 {
      assert Wrap64(-count) == -count;
      DropLastIs(c, v, -count, k);
    }
  }

  // ---- reading and setting by index

  /** The whole list. */
  lemma RangeAll(ks: Keyspace, key: Bytes, zero: Bytes, last: Bytes)
    requires ListsNonEmpty(ks) && ParseInt(zero) == Some(0) && ParseInt(last) == Some(-1)
    ensures RunList(CLRange, ks, [key, zero, last]) ==
            Unchanged(ks, if OtherType(ks, key) then WrongType()
                          else if key !in ks then EmptyMultiBulk
                          else MultiBulk(Present(Elems(ks, key))))
  {
    hide WrongType, ParseInt, Present;
    var c := Elems(ks, key);
    assert c[0..|c|] == c;
  }

  /** LLEN answers how many elements there are. */
  lemma LLenIff(ks: Keyspace, key: Bytes)
    ensures RunList(CLLen, ks, [key]) ==
            Unchanged(ks, if OtherType(ks, key) then WrongType() else Int(|Elems(ks, key)|))
  {
    hide WrongType;
  }

  /** LINDEX answers the element at an index counted from 0, or from -1 backwards, and nil outside;
      LSET replaces that element and no other, and outside answers an error. */
  lemma IndexIff(ks: Keyspace, key: Bytes, text: Bytes, index: int, value: Bytes)
    requires ParseInt(text) == Some(index)
    ensures var c := Elems(ks, key);
            var i := FromEnd(index, |c|);
            var get, set' := RunList(CLIndex, ks, [key, text]), RunList(CLSet, ks, [key, text, value]);
            if OtherType(ks, key) then get == Unchanged(ks, WrongType()) == set'
            else
              && get == Unchanged(ks, if 0 <= i < |c| then Bulk(c[i]) else NullBulk)
              && if key !in ks then set' == Unchanged(ks, Err("ERR no such key"))
                 else if 0 <= i < |c| then
                   && set' == Done(set'.ks, OkReply()) && SameElsewhere(set'.ks, ks, key)
                   && key in set'.ks && set'.ks[key].List? && |Elems(set'.ks, key)| == |c|
                   && forall j :: 0 <= j < |c| ==> Elems(set'.ks, key)[j] == if j == i then value else c[j]
                 else set' == Unchanged(ks, Err("ERR index out of range"))
  {
    hide WrongType, ParseInt;
  }

  /** An index or a count that is no integer is answered as such, whatever the key holds. */
  lemma NotAnInteger(ks: Keyspace, key: Bytes, text: Bytes, other: Bytes)
    requires ParseInt(text) == None
    ensures RunList(CLIndex, ks, [key, text]) == Unchanged(ks, NotInteger())
    ensures RunList(CLSet, ks, [key, text, other]) == Unchanged(ks, NotInteger())
    ensures RunList(CLRem, ks, [key, text, other]) == Unchanged(ks, NotInteger())
    ensures RunList(CLRange, ks, [key, text, other]) == Unchanged(ks, NotInteger())
    ensures RunList(CLRange, ks, [key, other, text]) == Unchanged(ks, NotInteger())
  {
    hide NotInteger, ParseInt;
  }
}
