/** The sequence operations that the linked list implements, and what they mean. */
module Sequences {

  function Reverse<T>(s: seq<T>): (r: seq<T>)
    ensures |r| == |s|
  {
    if s == [] then [] else Reverse(s[1..]) + [s[0]]
  }

  function Count<T(==)>(s: seq<T>, v: T): (n: nat)
    ensures n <= |s|
  {
    if s == [] then 0 else (if s[|s| - 1] == v then 1 else 0) + Count(s[..|s| - 1], v)
  }

  /** s without any occurrence of v. */
  function Without<T(==)>(s: seq<T>, v: T): (r: seq<T>)
    ensures |r| == |s| - Count(s, v)
  {
    if s == [] then [] else Without(s[..|s| - 1], v) + (if s[|s| - 1] == v then [] else [s[|s| - 1]])
  }

  /** s without the first n occurrences of v. */
  function DropFirst<T(==)>(s: seq<T>, v: T, n: nat): seq<T> {
    if s == [] then []
    else if Count(s[..|s| - 1], v) < n then
      DropFirst(s[..|s| - 1], v, n) + (if s[|s| - 1] == v then [] else [s[|s| - 1]])
    else DropFirst(s[..|s| - 1], v, n) + [s[|s| - 1]]
  }

  /** s without the last n occurrences of v. */
  function DropLast<T(==)>(s: seq<T>, v: T, n: nat): seq<T> {
    if s == [] || n == 0 then s
    else if s[|s| - 1] == v then DropLast(s[..|s| - 1], v, n - 1)
    else DropLast(s[..|s| - 1], v, n) + [s[|s| - 1]]
  }

  lemma {:induction false} CountConcat<T>(a: seq<T>, b: seq<T>, v: T)
    ensures Count(a + b, v) == Count(a, v) + Count(b, v)
  {
    if b == [] {
      assert a + b == a;
    } else {
      CountConcat(a, b[..|b| - 1], v);
      assert (a + b)[..|a + b| - 1] == a + b[..|b| - 1];
    }
  }

  lemma {:induction false} WithoutConcat<T>(a: seq<T>, b: seq<T>, v: T)
    ensures Without(a + b, v) == Without(a, v) + Without(b, v)
  {
    if b == [] {
      assert a + b == a && Without(a, v) + [] == Without(a, v);
    } else {
      var front := b[..|b| - 1];
      var last := if b[|b| - 1] == v then [] else [b[|b| - 1]];
      WithoutConcat(a, front, v);
      assert (a + b)[..|a + b| - 1] == a + front;
      assert Without(a, v) + Without(front, v) + last == Without(a, v) + (Without(front, v) + last);
    }
  }

  /** Without deletes every match and keeps the other elements, in their number. */
  lemma WithoutHasNone<T>(s: seq<T>, v: T)
    ensures v !in Without(s, v)
    ensures forall x :: x != v ==> multiset(Without(s, v))[x] == multiset(s)[x]
    ensures Count(s, v) == multiset(s)[v]
  {
    hide Without, Count;
    CountIsMultiplicity(s, v);
    forall x ensures multiset(Without(s, v))[x] == if x == v then 0 else multiset(s)[x] {
      WithoutKeeps(s, v, x);
    }
    assert v in Without(s, v) ==> v in multiset(Without(s, v));
  }

  lemma {:induction false} CountIsMultiplicity<T>(s: seq<T>, v: T)
    ensures Count(s, v) == multiset(s)[v]
  {
    if s != [] {
      CountIsMultiplicity(s[..|s| - 1], v);
      assert s == s[..|s| - 1] + [s[|s| - 1]];
    }
  }

  lemma {:induction false} WithoutKeeps<T>(s: seq<T>, v: T, x: T)
    ensures multiset(Without(s, v))[x] == if x == v then 0 else multiset(s)[x]
  {
    if s != [] {
      WithoutKeeps(s[..|s| - 1], v, x);
      assert s == s[..|s| - 1] + [s[|s| - 1]];
    }
  }

  /** Dropping the first n matches deletes every match in a prefix that holds n of them (or
      all of them, if there are fewer) and keeps the rest of the sequence as it is. */
  lemma {:induction false} DropFirstIs<T>(s: seq<T>, v: T, n: nat, k: nat)
    requires k <= |s| && Count(s[..k], v) <= n
    requires k == |s| || Count(s[..k], v) == n
    ensures DropFirst(s, v, n) == Without(s[..k], v) + s[k..]
    decreases |s|
  {
    if s == [] {
    } else if k == |s| {
      var front := s[..|s| - 1];
      assert s[..k] == s && front[..|front|] == front && front[|front|..] == [] && s[k..] == [];
      CountConcat(front, [s[|s| - 1]], v);
      assert s == front + [s[|s| - 1]];
      if Count(front, v) <= n {
        DropFirstIs(s[..|s| - 1], v, n, |s| - 1);
      }
      assert Without(front, v) + [] == Without(front, v);
    } else {
      var front := s[..|s| - 1];
      assert front[..k] == s[..k] && front == s[..k] + front[k..] && s[k..] == front[k..] + [s[|s| - 1]];
      CountConcat(s[..k], front[k..], v);
      DropFirstIs(front, v, n, k);
    }
  }

  /** Likewise from the end. */
  lemma {:induction false} DropLastIs<T>(s: seq<T>, v: T, n: nat, k: nat)
    requires k <= |s| && Count(s[k..], v) <= n
    requires k == 0 || Count(s[k..], v) == n
    ensures DropLast(s, v, n) == s[..k] + Without(s[k..], v)
    decreases |s|
  {
    if s == [] {
    } else if k == |s| {
      assert s[k..] == [] && s[..k] + [] == s;
    } else {
      var front := s[..|s| - 1];
      assert s[k..] == front[k..] + [s[|s| - 1]] && front[..k] == s[..k];
      assert s[k..][..|s[k..]| - 1] == front[k..];
      if n == 0 {
        WithoutNone(s[k..], v);
        assert s == s[..k] + s[k..];
      } else {
        DropLastIs(front, v, if s[|s| - 1] == v then n - 1 else n, k);
      }
    }
  }

  lemma {:induction false} WithoutNone<T>(s: seq<T>, v: T)
    requires Count(s, v) == 0
    ensures Without(s, v) == s
  {
    if s != [] {
      WithoutNone(s[..|s| - 1], v);
      assert s == s[..|s| - 1] + [s[|s| - 1]];
    }
  }

  /** The elements of c at positions from lo to hi. */
  function Between<T>(c: seq<T>, lo: int, hi: int): seq<T> {
    if c == [] then []
    else Between(c[..|c| - 1], lo, hi) + if lo <= |c| - 1 <= hi then [c[|c| - 1]] else []
  }

  function Clip<T>(c: seq<T>, lo: int, hi: int): seq<T> {
    var from := if lo < 0 then 0 else lo;
    var to := if hi < |c| then hi + 1 else |c|;
    if from <= to <= |c| then c[from..to] else []
  }

  lemma ClipGrows<T>(front: seq<T>, last: T, lo: int, hi: int)
    ensures Clip(front + [last], lo, hi) == Clip(front, lo, hi) + if lo <= |front| <= hi then [last] else []
  {
    var from := if lo < 0 then 0 else lo;
    if lo <= |front| <= hi {
      assert (front + [last])[from..|front| + 1] == front[from..] + [last];
    } else if from <= hi + 1 <= |front| {
      assert (front + [last])[from..hi + 1] == front[from..hi + 1];
    }
  }

  lemma {:induction false} BetweenIs<T>(c: seq<T>, lo: int, hi: int)
    ensures Between(c, lo, hi) == Clip(c, lo, hi)
  {
    if c != [] {
      hide Clip;
      var front, last := c[..|c| - 1], c[|c| - 1];
      BetweenIs(front, lo, hi);
      ClipGrows(front, last, lo, hi);
      assert c == front + [last];
    }
  }

  /** A position counted from the end if it is negative. */
  function FromEnd(index: int, size: nat): int {
    if index < 0 then index + size else index
  }
}
