/** The set of strings (datastruct/set/set.go), whose members are visited in Go's unspecified
    map order. */
module HashSets {
  import opened Bytes
  import opened Commands

  /** A slice that lists a set: each member once. */
  ghost predicate Lists(slice: seq<Bytes>, s: set<Bytes>) {
    && |slice| == |s|
    && (forall v :: v in slice <==> v in s)
    && forall i, j :: 0 <= i < j < |slice| ==> slice[i] != slice[j]
  }

  lemma ListsNothing()
    ensures Lists([], {})
  {
  }

  lemma ListsMore(slice: seq<Bytes>, s: set<Bytes>, v: Bytes)
    requires Lists(slice, s) && v !in s
    ensures Lists(slice + [v], s + {v})
  {
  }

  class HashSet {
    var members: set<Bytes>

    /** Make, with members given once or more often. */
    constructor Make(vals: seq<Bytes>)
      ensures members == SetOf(vals)
    {
      members := {};
      new;
      for i := 0 to |vals|
        invariant members == SetOf(vals[..i])
      {
        assert vals[..i + 1] == vals[..i] + [vals[i]];
        var n := Add(vals[i]);
      }
      assert vals[..|vals|] == vals;
    }

    method Add(val: Bytes) returns (n: int)
      modifies this
      ensures members == old(members) + {val}
      ensures n == |members| - |old(members)|
    {
      n := if val in members then 0 else 1;
      assert val in members ==> members + {val} == members;
      members := members + {val};
    }

    method Remove(val: Bytes) returns (n: int)
      modifies this
      ensures members == old(members) - {val}
      ensures n == |old(members)| - |members|
    {
      n := if val in members then 1 else 0;
      assert val !in members ==> members - {val} == members;
      members := members - {val};
    }

    predicate Has(val: Bytes)
      reads this
    {
      val in members
    }

    function Len(): int
      reads this
    {
      |members|
    }

    method ToSlice() returns (slice: seq<Bytes>)
      ensures Lists(slice, members)
    {
      hide Lists;
      slice := [];
      ListsNothing();
      var rest := members;
      assert members - rest == {};
      while rest != {}
        invariant rest <= members && Lists(slice, members - rest)
        decreases rest
      {
        var member :| member in rest;
        ListsMore(slice, members - rest, member);
        assert members - (rest - {member}) == members - rest + {member};
        slice := slice + [member];
        rest := rest - {member};
      }
      assert members - {} == members;
    }

    method Intersect(another: HashSet) returns (result: HashSet)
      ensures fresh(result) && result.members == members * another.members
    {
      result := new HashSet.Make([]);
      var rest := another.members;
      while rest != {}
        invariant fresh(result) && rest <= another.members
        invariant result.members == members * (another.members - rest)
        decreases rest
      {
        var member :| member in rest;
        if Has(member) {
          var n := result.Add(member);
        }
        rest := rest - {member};
      }
    }

    method Union(another: HashSet) returns (result: HashSet)
      ensures fresh(result) && result.members == members + another.members
    {
      result := new HashSet.Make([]);
      var rest := another.members;
      while rest != {}
        invariant fresh(result) && rest <= another.members
        invariant result.members == another.members - rest
        decreases rest
      {
        var member :| member in rest;
        var n := result.Add(member);
        rest := rest - {member};
      }
      rest := members;
      while rest != {}
        invariant fresh(result) && rest <= members
        invariant forall v :: v in result.members <==> v in another.members || v in members - rest
        decreases rest
      {
        var member :| member in rest;
        var n := result.Add(member);
        rest := rest - {member};
      }
    }

    method Diff(another: HashSet) returns (result: HashSet)
      ensures fresh(result) && result.members == members - another.members
    {
      result := new HashSet.Make([]);
      var rest := members;
      while rest != {}
        invariant fresh(result) && rest <= members
        invariant result.members == (members - rest) - another.members
        decreases rest
      {
        var member :| member in rest;
        if !another.Has(member) {
          var n := result.Add(member);
        }
        rest := rest - {member};
      }
    }

    /** RandomDistinctMembers: the first so many members, in whatever order the map is visited. */
    method RandomDistinctMembers(limit: nat) returns (result: seq<Bytes>)
      ensures Fits(Sample(members, AtMost(limit, |members|)), result)
    {
      result := [];
      var rest := members;
      while rest != {} && |result| < limit
        invariant rest <= members && |result| <= limit && |members - rest| == |result|
        invariant forall i :: 0 <= i < |result| ==> result[i] in members - rest
        invariant forall i, j :: 0 <= i < j < |result| ==> result[i] != result[j]
        decreases rest
      {
        var k :| k in rest;
        assert members - (rest - {k}) == members - rest + {k};
        result := result + [k];
        rest := rest - {k};
      }
      SizeOfRest(members, rest);
    }

    /** RandomMembers: whatever member the map is visited at first, so many times. */
    method RandomMembers(limit: nat) returns (result: seq<Bytes>)
      ensures Fits(Repeats(members, limit), result)
    {
      result := [];
      for i := 0 to limit
        invariant |result| == i
        invariant forall j :: 0 <= j < i ==> if members == {} then result[j] == [] else result[j] in members
      {
        var key: Bytes := [];
        if members != {} {
          key :| key in members;
        }
        result := result + [key];
      }
    }
  }

  lemma SizeOfRest(all: set<Bytes>, rest: set<Bytes>)
    requires rest <= all
    ensures |all| == |all - rest| + |rest|
  {
    assert all == (all - rest) + rest;
  }
}
