/** What the commands of keys.go do, key by key. */
module KeyLaws {
  import opened Bytes
  import opened Reply
  import opened Commands
  import opened Effects
  import Wildcard
  import Patterns

  predicate SameAt(a: Keyspace, b: Keyspace, key: Bytes) {
    (key in a <==> key in b) && (key in a ==> a[key] == b[key])
  }

  /** EXISTS answers how many of its arguments are keys, one that is named twice counting twice. */
  lemma ExistsCounts(ks: Keyspace, keys: seq<Bytes>)
    requires keys != []
    ensures RunKey(CExists, ks, keys) == Unchanged(ks, Int(|set i | 0 <= i < |keys| && keys[i] in ks|))
  {
    CountPlaces(ks, keys, |keys|);
    assert keys[..|keys|] == keys;
    assert Places(ks, keys, |keys|) == set i | 0 <= i < |keys| && keys[i] in ks;
  }

  function Places(ks: Keyspace, keys: seq<Bytes>, n: nat): set<int>
    requires n <= |keys|
  {
    set i | 0 <= i < n && keys[i] in ks
  }

  lemma {:induction false} CountPlaces(ks: Keyspace, keys: seq<Bytes>, n: nat)
    requires n <= |keys|
    ensures CountPresent(ks, keys[..n]) == |Places(ks, keys, n)|
  {
    if n == 0 {
      assert Places(ks, keys, 0) == {};
    } else {
      CountPlaces(ks, keys, n - 1);
      CountLast(ks, keys[..n - 1], keys[n - 1]);
      assert keys[..n] == keys[..n - 1] + [keys[n - 1]];
      assert Places(ks, keys, n) == Places(ks, keys, n - 1) + if keys[n - 1] in ks then {n - 1} else {};
    }
  }

  lemma {:induction false} CountLast(ks: Keyspace, keys: seq<Bytes>, key: Bytes)
    ensures CountPresent(ks, keys + [key]) == CountPresent(ks, keys) + if key in ks then 1 else 0
  {
    if keys == [] {
      assert [] + [key] == [key] && [key][1..] == [];
    } else {
      assert (keys + [key])[1..] == keys[1..] + [key];
      CountLast(ks, keys[1..], key);
    }
  }

  /** DEL leaves every key but those it names, answers how many of those were there, each once, and is
      logged exactly if there was one. */
  lemma DelIff(ks: Keyspace, keys: seq<Bytes>)
    requires keys != []
    ensures var e, n := RunKey(CDel, ks, keys), |set k | k in ks && k in keys|;
      && (forall k :: k in e.ks <==> k in ks && k !in keys) && (forall k :: k in e.ks ==> e.ks[k] == ks[k])
      && e.answer == Plain(Int(n)) && (e.logged <==> n > 0)
  {
    RemovesExactly(ks, keys);
    assert ks.Keys * SetOf(keys) == set k | k in ks && k in keys;
  }

  /** FLUSHDB leaves no key; KEYS lists the keys that split along the parts of the pattern; TYPE knows
      strings and absent keys only. */
  lemma FlushesAll(ks: Keyspace, args: seq<Bytes>)
    ensures RunKey(CFlushDB, ks, args) == Done(map[], OkReply())
  {
  }

  lemma TypeIff(ks: Keyspace, key: Bytes)
    ensures RunKey(CType, ks, [key]) ==
            Unchanged(ks, if key !in ks then Status("none")
                          else if ks[key].Str? then Status("string")
                          else UnknownError())
  {
    hide UnknownError;
  }

  /** KEYS, on a pattern written part by part, lists exactly the keys that split into segments which
      match the parts one by one, and changes nothing. */
  lemma KeysIff(ks: Keyspace, parts: seq<Patterns.Part>)
    requires forall p <- parts :: Patterns.Proper(p)
    ensures var e := RunKey(CKeys, ks, [Patterns.WrittenAll(parts)]);
      && e.ks == ks && !e.logged && e.answer.Members?
      && forall k :: k in e.answer.members <==> k in ks && exists segments :: Patterns.SplitsInto(parts, k, segments)
  {
    hide Wildcard.Matches, Wildcard.Pattern, Patterns.WrittenAll, Patterns.Proper, Patterns.SplitsInto;
    forall k {
      Patterns.PatternMeans(parts, k);
    }
  }

  /** RENAME gives the destination the value of the source, takes the source away, which is all that is
      left of it if the two are one, and leaves the other keys alone. */
  lemma RenameIff(ks: Keyspace, source: Bytes, dest: Bytes)
    ensures var e := RunKey(CRename, ks, [source, dest]);
            if source !in ks then e == Unchanged(ks, NoSuchKey())
            else
              && e.answer == Plain(OkReply()) && e.logged && source !in e.ks
              && (source != dest ==> dest in e.ks && e.ks[dest] == ks[source])
              && forall k :: k != source && k != dest ==> SameAt(e.ks, ks, k)
  {
    hide NoSuchKey;
  }

  /** RENAMENX does the same to a free destination, and nothing to one that is taken, even if the source
      is absent or the same key. */
  lemma RenameNxIff(ks: Keyspace, source: Bytes, dest: Bytes)
    ensures var e := RunKey(CRenameNx, ks, [source, dest]);
            if dest in ks then e == Unchanged(ks, Int(0))
            else if source !in ks then e == Unchanged(ks, NoSuchKey())
            else e.ks == RunKey(CRename, ks, [source, dest]).ks && e.answer == Plain(Int(1)) && e.logged
  {
    hide NoSuchKey;
  }
}
