/** Glob patterns (lib/wildcard/wildcard.go). */
module Wildcard {
  import opened Bytes

  /** A pattern item, by its type code. */
  datatype Item =
    | Normal(character: byte)
    | All
    | Any
    | SetSymbol(members: set<byte>)
    | RangSymbol(members: set<byte>)
    | NegSymbol(members: set<byte>)

  /** The bytes that an item other than `*` stands for. */
  predicate Accepts(item: Item, c: byte) {
    match item
    case Normal(character) => c == character
    case All => false
    case Any => true
    case SetSymbol(members) => c in members
    case RangSymbol(members) => exists lo <- members, hi <- members :: lo <= c <= hi
    case NegSymbol(members) => c !in members
  }

  /** item.contains: the range case looks for the least and the greatest member in a loop
      over the map, in whatever order the map is iterated. */
  method Contains(item: Item, c: byte) returns (found: bool)
    requires item.SetSymbol? || item.RangSymbol? || item.NegSymbol?
    ensures found == Accepts(item, c)
  {
    match item {
      case SetSymbol(members) => return c in members;
      case NegSymbol(members) => return c !in members;
      case RangSymbol(members) =>
        if c in members {
          return true;
        }
        var min: byte, max: byte := 255 as char, 0 as char;
        var rest := members;
        while rest != {}
          invariant rest <= members
          invariant forall k <- members - rest :: min <= k <= max
          invariant if rest == members then min == 255 as char && max == 0 as char
                    else min in members && max in members
          decreases rest
        {
          var k :| k in rest;
          assert members - (rest - {k}) == members - rest + {k};
          if min > k {
            min := k;
          }
          if max < k {
            max := k;
          }
          rest := rest - {k};
        }
        assert members - {} == members;
        return c >= min && c <= max;
    }
  }

  // ---- matching

  /** The matching relation that the table computes, last item first. */
  predicate Matches(items: seq<Item>, s: Bytes)
    decreases |items|, |s|
  {
    if items == [] then s == []
    else
      var item, before := items[|items| - 1], items[..|items| - 1];
      if item == All then Matches(before, s) || (s != [] && Matches(items, s[..|s| - 1]))
      else s != [] && Matches(before, s[..|s| - 1]) && Accepts(item, s[|s| - 1])
  }

  function Concat(segments: seq<Bytes>): Bytes {
    if segments == [] then [] else Concat(segments[..|segments| - 1]) + segments[|segments| - 1]
  }

  /** A segment that an item can cover: anything for `*`, one accepted byte otherwise. */
  predicate Covers(item: Item, segment: Bytes) {
    item == All || (|segment| == 1 && Accepts(item, segment[0]))
  }

  /** s splits into consecutive segments, one for each item. */
  ghost predicate Splits(items: seq<Item>, s: Bytes, segments: seq<Bytes>) {
    && |segments| == |items|
    && Concat(segments) == s
    && forall j :: 0 <= j < |items| ==> Covers(items[j], segments[j])
  }

  /** The last item, a `*`, covers one byte more. */
  lemma LongerLast(items: seq<Item>, s: Bytes, segments: seq<Bytes>, c: byte) returns (longer: seq<Bytes>)
    requires items != [] && items[|items| - 1] == All && Splits(items, s, segments)
    ensures Splits(items, s + [c], longer)
  {
    var front, last := segments[..|segments| - 1], segments[|segments| - 1];
    longer := front + [last + [c]];
    assert longer[..|longer| - 1] == front;
    Assoc(Concat(front), last, [c]);
  }

  lemma OneMore(items: seq<Item>, s: Bytes, segments: seq<Bytes>, t: Bytes) returns (more: seq<Bytes>)
    requires items != [] && Splits(items[..|items| - 1], s, segments) && Covers(items[|items| - 1], t)
    ensures Splits(items, s + t, more)
  {
    more := segments + [t];
    assert more[..|more| - 1] == segments;
  }

  lemma {:induction false} SplitOf(items: seq<Item>, s: Bytes) returns (segments: seq<Bytes>)
    requires Matches(items, s)
    ensures Splits(items, s, segments)
    decreases |items|, |s|
  {
    hide Accepts;
    if items == [] {
      segments := [];
    } else {
      var item, before := items[|items| - 1], items[..|items| - 1];
      if item == All && !Matches(before, s) {
        var shorter := SplitOf(items, s[..|s| - 1]);
        segments := LongerLast(items, s[..|s| - 1], shorter, s[|s| - 1]);
        assert s == s[..|s| - 1] + [s[|s| - 1]];
      } else {
        var t := if item == All then s else s[..|s| - 1];
        var front := SplitOf(before, t);
        segments := OneMore(items, t, front, s[|t|..]);
        assert t + s[|t|..] == s;
      }
    }
  }

  lemma {:induction false} StarAbsorbs(items: seq<Item>, s: Bytes, t: Bytes)
    requires items != [] && items[|items| - 1] == All && Matches(items[..|items| - 1], s)
    ensures Matches(items, s + t)
    decreases |t|
  {
    if t == [] {
      assert s + t == s;
    } else {
      StarAbsorbs(items, s, t[..|t| - 1]);
      assert (s + t)[..|s + t| - 1] == s + t[..|t| - 1];
    }
  }

  lemma {:induction false} MatchOf(items: seq<Item>, s: Bytes, segments: seq<Bytes>)
    requires Splits(items, s, segments)
    ensures Matches(items, s)
    decreases |items|
  {
    if items != [] {
      var n := |items| - 1;
      MatchOf(items[..n], Concat(segments[..n]), segments[..n]);
      if items[n] == All {
        StarAbsorbs(items, Concat(segments[..n]), segments[n]);
      } else {
        assert s[..|s| - 1] == Concat(segments[..n]);
      }
    }
  }

  lemma MatchesIff(items: seq<Item>, s: Bytes)
    ensures Matches(items, s) <==> exists segments :: Splits(items, s, segments)
  {
    if Matches(items, s) {
      var segments := SplitOf(items, s);
    }
    forall segments | Splits(items, s, segments) ensures Matches(items, s) {
      MatchOf(items, s, segments);
    }
  }

  lemma MatchesNothing(items: seq<Item>, s: Bytes)
    ensures Matches(items[..0], s) <==> s == []
  {
  }

  method AcceptsByte(item: Item, c: byte) returns (accepted: bool)
    ensures accepted == Accepts(item, c)
  {
    match item {
      case All => return false;
      case Any => return true;
      case Normal(character) => return c == character;
      case _ => accepted := Contains(item, c);
    }
  }

  /** IsMatch: fills a table row by row; entry i, j says whether the first j items match the
      first i bytes. */
  method IsMatch(items: seq<Item>, s: Bytes) returns (matched: bool)
    ensures matched <==> exists segments :: Splits(items, s, segments)
  {
    hide Matches, Accepts, Splits;
    MatchesIff(items, s);
    MatchesNothing(items, s);
    assert items[..0] == [] && s[..0] == [];
    if |items| == 0 {
      return |s| == 0;
    }
    var m, n := |s|, |items|;
    var table := new bool[m + 1, n + 1]((i, j) => false);
    table[0, 0] := true;
    MatchesNothing(items, s[..0]);
    for j := 1 to n + 1
      invariant forall k :: 0 <= k < j ==> table[0, k] == Matches(items[..k], s[..0])
      invariant forall i, k :: 0 < i <= m && 0 <= k <= n ==> !table[i, k]
    {
      PrefixStep(items, s, 0, j);
      table[0, j] := table[0, j - 1] && items[j - 1] == All;
    }
    for i := 1 to m + 1
      invariant forall h, k :: 0 <= h < i && 0 <= k <= n ==> table[h, k] == Matches(items[..k], s[..h])
      invariant forall h :: i <= h <= m ==> !table[h, 0]
    {
      MatchesNothing(items, s[..i]);
      for j := 1 to n + 1
        invariant forall h, k :: 0 <= h < i && 0 <= k <= n ==> table[h, k] == Matches(items[..k], s[..h])
        invariant forall k :: 0 <= k < j ==> table[i, k] == Matches(items[..k], s[..i])
        invariant forall h :: i < h <= m ==> !table[h, 0]
      {
        PrefixStep(items, s, i, j);
        var item := items[j - 1];
        if item == All {
          table[i, j] := table[i - 1, j] || table[i, j - 1];
        } else {
          var accepted := AcceptsByte(item, s[i - 1]);
          table[i, j] := table[i - 1, j - 1] && accepted;
        }
      }
    }
    assert items[..n] == items && s[..m] == s;
    return table[m, n];
  }

  lemma PrefixStep(items: seq<Item>, s: Bytes, i: nat, j: nat)
    requires i <= |s| && 0 < j <= |items|
    ensures var item := items[j - 1];
            Matches(items[..j], s[..i]) <==>
            if item == All then Matches(items[..j - 1], s[..i]) || (i > 0 && Matches(items[..j], s[..i - 1]))
            else i > 0 && Matches(items[..j - 1], s[..i - 1]) && Accepts(item, s[i - 1])
  {
    assert items[..j][..j - 1] == items[..j - 1];
    if i > 0 {
      assert s[..i][..i - 1] == s[..i - 1];
    }
  }

  // ---- the runes of a string

  /** A byte that continues a UTF-8 sequence. */
  predicate Continues(b: byte) {
    0x80 <= b as int <= 0xBF
  }

  /** The second bytes that may follow a first byte of a sequence of three or four. */
  predicate Second(b0: byte, b1: byte) {
    var low := if b0 as int == 0xE0 then 0xA0 else if b0 as int == 0xF0 then 0x90 else 0x80;
    var high := if b0 as int == 0xED then 0x9F else if b0 as int == 0xF4 then 0x8F else 0xBF;
    low <= b1 as int <= high
  }

  const RUNE_ERROR: char := 0xFFFD as char

  /** The first rune of a string and its width, as Go's range loop finds them: a byte that starts
      no valid sequence counts as an error rune of width one. */
  function FirstRune(s: Bytes): (r: (char, nat))
    requires s != []
    ensures 1 <= r.1 <= |s|
  {
    var b0 := s[0] as int;
    if b0 < 0x80 then (s[0], 1)
    else if 0xC2 <= b0 <= 0xDF && |s| >= 2 && Continues(s[1]) then
      ((b0 % 0x20 * 0x40 + s[1] as int % 0x40) as char, 2)
    else if 0xE0 <= b0 <= 0xEF && |s| >= 3 && Second(s[0], s[1]) && Continues(s[2]) then
      ((b0 % 0x10 * 0x1000 + s[1] as int % 0x40 * 0x40 + s[2] as int % 0x40) as char, 3)
    else if 0xF0 <= b0 <= 0xF4 && |s| >= 4 && Second(s[0], s[1]) && Continues(s[2]) && Continues(s[3]) then
      ((b0 % 0x08 * 0x4_0000 + s[1] as int % 0x40 * 0x1000 + s[2] as int % 0x40 * 0x40 + s[3] as int % 0x40) as char, 4)
    else (RUNE_ERROR, 1)
  }

  function Runes(s: Bytes): (r: string)
    ensures |r| <= |s|
  {
    if s == [] then [] else var r := FirstRune(s); [r.0] + Runes(s[r.1..])
  }

  // ---- compiling

  /** The variables of the compiler's loop. */
  datatype Scan = Scan(items: seq<Item>, escape: bool, inSet: bool, members: set<byte>)

  const START := Scan([], false, false, {})

  /** The code converts each rune of the pattern to a byte, dropping its high bits. */
  function Truncate(rune: char): byte {
    (rune as int % 256) as char
  }

  /** The item of a closed set: `-` makes a range, and `^` wins over it. */
  function Close(members: set<byte>): Item {
    var body := members - {'-'};
    if '^' in members then NegSymbol(body - {'^'})
    else if '-' in members then RangSymbol(body)
    else SetSymbol(members)
  }

  function ScanRune(st: Scan, rune: char): Scan {
    var c := Truncate(rune);
    if st.escape then st.(items := st.items + [Normal(c)], escape := false)
    else if c == '*' then st.(items := st.items + [All])
    else if c == '?' then st.(items := st.items + [Any])
    else if c == '\\' then st.(escape := true)
    else if c == '[' then
      if st.inSet then st.(members := st.members + {c}) else st.(inSet := true, members := {})
    else if c == ']' then
      if st.inSet then st.(items := st.items + [Close(st.members)], inSet := false, members := {})
      else st.(items := st.items + [Normal(c)])
    else if st.inSet then st.(members := st.members + {c})
    else st.(items := st.items + [Normal(c)])
  }

  function ScanAll(st: Scan, src: string): Scan {
    if src == [] then st else ScanRune(ScanAll(st, src[..|src| - 1]), src[|src| - 1])
  }

  function Compile(src: string): seq<Item> {
    ScanAll(START, src).items
  }

  /** The pattern that a byte string is compiled to. */
  function Pattern(src: Bytes): seq<Item> {
    Compile(Runes(src))
  }

  /** CompilePattern ranges over the runes of the string. */
  method CompilePattern(src: Bytes) returns (items: seq<Item>)
    ensures items == Pattern(src)
  {
    hide FirstRune;
    items := [];
    var escape, inSet := false, false;
    var members: set<byte> := {};
    var i := 0;
    ghost var past: string := [];
    while i < |src|
      invariant 0 <= i <= |src| && Runes(src) == past + Runes(src[i..])
      invariant ScanAll(START, past) == Scan(items, escape, inSet, if inSet then members else {})
    {
      var v := FirstRune(src[i..]);
      assert src[i..][v.1..] == src[i + v.1..];
      Assoc(past, [v.0], Runes(src[i + v.1..]));
      assert (past + [v.0])[..|past|] == past;
      past := past + [v.0];
      i := i + v.1;
      var c := Truncate(v.0);
      if escape {
        items := items + [Normal(c)];
        escape := false;
      } else if c == '*' {
        items := items + [All];
      } else if c == '?' {
        items := items + [Any];
      } else if c == '\\' {
        escape := true;
      } else if c == '[' {
        if !inSet {
          inSet := true;
          members := {};
        } else {
          members := members + {c};
        }
      } else if c == ']' {
        if inSet {
          inSet := false;
          var range, neg := '-' in members, '^' in members;
          assert !range ==> members - {'-'} == members;
          members := members - {'-'};
          if neg {
            items := items + [NegSymbol(members - {'^'})];
          } else if range {
            items := items + [RangSymbol(members)];
          } else {
            items := items + [SetSymbol(members)];
          }
        } else {
          items := items + [Normal(c)];
        }
      } else if inSet {
        members := members + {c};
      } else {
        items := items + [Normal(c)];
      }
    }
    assert past == Runes(src);
  }

  /** A pattern that ends outside an escape and a set. */
  predicate Complete(src: string) {
    var st := ScanAll(START, src);
    !st.escape && !st.inSet
  }

  /** Items that are already there only come first. */
  lemma ScanShift(prefix: seq<Item>, st: Scan, rune: char)
    ensures ScanRune(st.(items := prefix + st.items), rune) ==
            var st' := ScanRune(st, rune); st'.(items := prefix + st'.items)
  {
  }

  lemma {:induction false} ScanMore(a: string, b: string)
    requires Complete(a)
    ensures ScanAll(START, a + b) ==
            var st := ScanAll(START, b); st.(items := Compile(a) + st.items)
  {
    hide ScanRune;
    if b == [] {
      assert a + b == a && Compile(a) + [] == Compile(a);
      ScanInv(a);
    } else {
      ScanMore(a, b[..|b| - 1]);
      assert (a + b)[..|a + b| - 1] == a + b[..|b| - 1];
      ScanShift(Compile(a), ScanAll(START, b[..|b| - 1]), b[|b| - 1]);
    }
  }

  lemma {:induction false} ScanInv(src: string)
    ensures var st := ScanAll(START, src); !st.inSet ==> st.members == {}
  {
    if src != [] {
      ScanInv(src[..|src| - 1]);
    }
  }

  /** Compiling a concatenation concatenates the compilations. */
  lemma CompileConcat(a: string, b: string)
    requires Complete(a)
    ensures Compile(a + b) == Compile(a) + Compile(b)
    ensures Complete(a + b) <==> Complete(b)
  {
    ScanMore(a, b);
  }

  function Literal(s: Bytes): seq<Item> {
    seq(|s|, i requires 0 <= i < |s| => Normal(s[i]))
  }

  /** Every byte behind a backslash. */
  function Escaped(s: Bytes): Bytes {
    if s == [] then [] else ['\\', s[0]] + Escaped(s[1..])
  }

  predicate Meta(c: char) {
    c == '*' || c == '?' || c == '\\' || c == '['
  }

  function Truncated(runes: string): (r: Bytes)
    ensures |r| == |runes| && forall i :: 0 <= i < |r| ==> r[i] == Truncate(runes[i])
  {
    seq(|runes|, i requires 0 <= i < |runes| => Truncate(runes[i]))
  }

  /** What the compiler makes of a byte that is no part of a longer sequence. */
  function Alone(b: byte): byte {
    if b as int < 0x80 then b else Truncate(RUNE_ERROR)
  }

  function AllAlone(s: Bytes): (r: Bytes)
    ensures |r| == |s| && forall i :: 0 <= i < |r| ==> r[i] == Alone(s[i])
  {
    seq(|s|, i requires 0 <= i < |s| => Alone(s[i]))
  }

  /** The strings that come through: ASCII and the byte that an error rune is truncated to. */
  predicate ComesThrough(s: Bytes) {
    forall i :: 0 <= i < |s| ==> Alone(s[i]) == s[i]
  }

  lemma {:induction false} LiteralMatches(s: Bytes, t: Bytes)
    ensures Matches(Literal(s), t) <==> t == s
  {
    if s != [] {
      var front := s[..|s| - 1];
      assert Literal(s)[..|s| - 1] == Literal(front);
      if t != [] {
        LiteralMatches(front, t[..|t| - 1]);
        assert t == t[..|t| - 1] + [t[|t| - 1]] && s == front + [s[|s| - 1]];
      }
    }
  }

  lemma FirstIsBackslash(s: Bytes)
    requires s != [] && s[0] == '\\'
    ensures FirstRune(s) == ('\\', 1)
  {
  }

  lemma FirstBeforeBackslash(s: Bytes)
    requires s != [] && (|s| == 1 || s[1] == '\\')
    ensures FirstRune(s) == (if s[0] as int < 0x80 then s[0] else RUNE_ERROR, 1)
  {
  }

  lemma EscapedFirst(b: byte, rest: Bytes)
    requires rest == [] || rest[0] == '\\'
    ensures Runes(['\\', b] + rest) == ['\\', if b as int < 0x80 then b else RUNE_ERROR] + Runes(rest)
  {
    hide FirstRune;
    var s: Bytes := ['\\', b] + rest;
    FirstIsBackslash(s);
    FirstBeforeBackslash([b] + rest);
    assert s[1..] == [b] + rest && ([b] + rest)[1..] == rest;
  }

  lemma {:induction false} CompileEscaped(s: Bytes)
    ensures Pattern(Escaped(s)) == Literal(AllAlone(s))
  {
    hide FirstRune, ScanRune;
    if s == [] {
      assert Literal(AllAlone([])) == [];
    } else {
      var rune: char := if s[0] as int < 0x80 then s[0] else RUNE_ERROR;
      CompileEscaped(s[1..]);
      EscapedFirst(s[0], Escaped(s[1..]));
      CompileBackslash(rune);
      CompileConcat(['\\', rune], Runes(Escaped(s[1..])));
      assert Literal(AllAlone(s)) == [Normal(Alone(s[0]))] + Literal(AllAlone(s[1..]));
    }
  }

  lemma CompileBackslash(rune: char)
    ensures Complete(['\\', rune]) && Compile(['\\', rune]) == [Normal(Truncate(rune))]
  {
    var src := ['\\', rune];
    assert src[..1] == ['\\'] && src[..1][..0] == [];
    assert ScanAll(START, src[..1]) == START.(escape := true);
  }

  lemma {:induction false} CompilePlain(src: string)
    requires forall i :: 0 <= i < |src| ==> !Meta(Truncate(src[i]))
    ensures ScanAll(START, src) == START.(items := Literal(Truncated(src)))
  {
    if src != [] {
      var front, last := src[..|src| - 1], src[|src| - 1];
      CompilePlain(front);
      assert Literal(Truncated(src)) == Literal(Truncated(front)) + [Normal(Truncate(last))];
    } else {
      assert Literal(Truncated([])) == [];
    }
  }

  lemma {:induction false} TruncatedIff(s: Bytes)
    ensures Truncated(Runes(s)) == s <==> ComesThrough(s)
  {
    if s != [] {
      var r := FirstRune(s);
      var rest := s[r.1..];
      TruncatedIff(rest);
      assert Truncated(Runes(s)) == [Truncate(r.0)] + Truncated(Runes(rest));
      if r.1 == 1 {
        assert s == [s[0]] + rest;
        OneByte(s);
        assert ([Truncate(r.0)] + Truncated(Runes(rest)))[1..] == Truncated(Runes(rest));
      } else {
        assert s[0] as int >= 0xC2 && s[0] as int <= 0xF4;
      }
    }
  }

  lemma OneByte(s: Bytes)
    requires s != [] && FirstRune(s).1 == 1
    ensures Truncate(FirstRune(s).0) == Alone(s[0])
    ensures ComesThrough(s) <==> Alone(s[0]) == s[0] && ComesThrough(s[1..])
  {
    assert s == [s[0]] + s[1..];
  }

  /** A fully escaped string, as a pattern, matches exactly itself if and only if each of its bytes
      is ASCII or the byte 0xFD; so does a pattern without metacharacters. */
  lemma LiteralPatternsIff(s: Bytes)
    ensures (forall t :: Matches(Pattern(Escaped(s)), t) <==> t == s) <==> ComesThrough(s)
    ensures (forall i :: 0 <= i < |Runes(s)| ==> !Meta(Truncate(Runes(s)[i]))) ==>
              ((forall t :: Matches(Pattern(s), t) <==> t == s) <==> ComesThrough(s))
  {
    hide Matches, Runes, Compile, Pattern;
    CompileEscaped(s);
    OnlyItself(AllAlone(s), s);
    assert AllAlone(s) == s <==> ComesThrough(s);
    if forall i :: 0 <= i < |Runes(s)| ==> !Meta(Truncate(Runes(s)[i])) {
      CompilePlain(Runes(s));
      PatternIs(s);
      OnlyItself(Truncated(Runes(s)), s);
      TruncatedIff(s);
    }
  }

  lemma PatternIs(s: Bytes)
    ensures Pattern(s) == ScanAll(START, Runes(s)).items
  {
  }

  lemma OnlyItself(u: Bytes, s: Bytes)
    ensures (forall t :: Matches(Literal(u), t) <==> t == s) <==> u == s
  {
    hide Matches;
    LiteralMatches(u, u);
    forall t ensures Matches(Literal(u), t) <==> t == u {
      LiteralMatches(u, t);
    }
  }

  lemma OneRune(rune: char)
    ensures Compile([rune]) == ScanRune(START, rune).items
  {
    var src := [rune];
    assert src[..|src| - 1] == [];
    assert ScanAll(START, []) == START;
    assert ScanAll(START, src) == ScanRune(START, rune);
  }

  /** The runes are truncated before they are looked at: this one, U+012A, becomes a star. */
  lemma TruncatedToStar(t: Bytes)
    ensures Matches(Pattern([0xC4 as char, 0xAA as char]), t)
  {
    var s: Bytes := [0xC4 as char, 0xAA as char];
    assert FirstRune(s) == (0x12A as char, 2);
    assert s[2..] == [] && Runes(s[2..]) == [];
    assert Runes(s) == [0x12A as char];
    OneRune(0x12A as char);
    assert Truncate(0x12A as char) == '*';
    assert Pattern(s) == [All];
    StarMatches(t);
  }

  lemma StarMatches(t: Bytes)
    ensures Matches([All], t)
  {
    var items := [All];
    assert items[..|items| - 1] == [] && Matches([], []);
    StarAbsorbs(items, [], t);
    assert [] + t == t;
  }
}
