/** What glob patterns mean (lib/wildcard/wildcard.go): every pattern is made of a few kinds of parts,
    and a string matches if it splits into segments that match them one by one. */
module Patterns {
  import opened Bytes
  import opened Wildcard

  /** The parts of a pattern, as they are written. */
  datatype Part =
    | AnyString            // *
    | AnyByte              // ?
    | Plain(b: byte)       // a byte without a meaning of its own
    | Quoted(b: byte)      // \b
    | OneOf(m: Bytes)      // [m]
    | NoneOf(m: Bytes)     // [^m]
    | FromTo(m: Bytes, n: Bytes) // [m-n]
    | NotFromTo(m: Bytes, n: Bytes) // [^m-n]

  function Written(p: Part): Bytes {
    match p
    case AnyString => "*"
    case AnyByte => "?"
    case Plain(b) => [b]
    case Quoted(b) => ['\\', b]
    case OneOf(m) => "[" + m + "]"
    case NoneOf(m) => "[^" + m + "]"
    case FromTo(m, n) => "[" + m + "-" + n + "]"
    case NotFromTo(m, n) => "[^" + m + "-" + n + "]"
  }

  predicate Ascii(b: byte) {
    b as int < 0x80
  }

  /** The bytes that stand for themselves inside a set. */
  predicate InSet(m: Bytes) {
    forall i :: 0 <= i < |m| ==>
      Ascii(m[i]) && m[i] != '*' && m[i] != '?' && m[i] != '\\' && m[i] != ']' && m[i] != '-' && m[i] != '^'
  }

  predicate Proper(p: Part) {
    match p
    case AnyString | AnyByte => true
    case Plain(b) => Ascii(b) && b != '*' && b != '?' && b != '\\' && b != '['
    case Quoted(b) => Ascii(b)
    case OneOf(m) => InSet(m)
    case NoneOf(m) => InSet(m)
    case FromTo(m, n) => InSet(m) && InSet(n)
    case NotFromTo(m, n) => InSet(m) && InSet(n)
  }

  /** The segments that a part matches. A range goes from the least to the greatest byte that is
      written in it; a negated range is no range: it leaves out the bytes written in it. */
  ghost predicate Fits(p: Part, u: Bytes) {
    match p
    case AnyString => true
    case AnyByte => |u| == 1
    case Plain(b) => u == [b]
    case Quoted(b) => u == [b]
    case OneOf(m) => |u| == 1 && u[0] in m
    case NoneOf(m) => |u| == 1 && u[0] !in m
    case FromTo(m, n) => |u| == 1 && exists lo, hi :: lo in m + n && hi in m + n && lo <= u[0] <= hi
    case NotFromTo(m, n) => |u| == 1 && u[0] !in m && u[0] !in n
  }

  function WrittenAll(parts: seq<Part>): Bytes {
    if parts == [] then [] else Written(parts[0]) + WrittenAll(parts[1..])
  }

  /** t splits into consecutive segments, one for each part. */
  ghost predicate SplitsInto(parts: seq<Part>, t: Bytes, segments: seq<Bytes>) {
    && |segments| == |parts|
    && Concat(segments) == t
    && forall j :: 0 <= j < |parts| ==> Fits(parts[j], segments[j])
  }

  // ---- ASCII text

  lemma AsciiFirst(s: Bytes)
    requires s != [] && Ascii(s[0])
    ensures FirstRune(s) == (s[0], 1)
  {
  }

  lemma {:induction false} AsciiRunes(s: Bytes, rest: Bytes)
    requires forall i :: 0 <= i < |s| ==> Ascii(s[i])
    ensures Runes(s + rest) == s + Runes(rest)
  {
    hide FirstRune;
    if s == [] {
      assert s + rest == rest && s + Runes(rest) == Runes(rest);
    } else {
      var all := s + rest;
      AsciiFirst(all);
      assert all[1..] == s[1..] + rest;
      AsciiRunes(s[1..], rest);
      assert s == [s[0]] + s[1..];
    }
  }

  lemma AsciiTruncates(b: byte)
    ensures Truncate(b) == b
  {
  }

  // ---- one part

  function SetOf(m: Bytes): set<byte> {
    set b | b in m
  }

  /** Bytes inside an open set are taken in. */
  lemma {:induction false} ScanSet(st: Scan, src: string, m: Bytes)
    requires InSet(m) && ScanAll(START, src) == st && st.inSet && !st.escape
    ensures ScanAll(START, src + m) == st.(members := st.members + SetOf(m))
  {
    if m == [] {
      assert src + m == src && st.members + SetOf(m) == st.members;
    } else {
      var front, last := m[..|m| - 1], m[|m| - 1];
      assert last == m[|m| - 1];
      ScanSet(st, src, front);
      assert (src + m)[..|src + m| - 1] == src + front && (src + m)[|src + m| - 1] == last;
      AsciiTruncates(last);
      assert m == front + [last];
      assert st.members + SetOf(m) == st.members + SetOf(front) + {last};
    }
  }

  lemma ScanOne(src: string, b: byte)
    ensures ScanAll(START, src + [b]) == ScanRune(ScanAll(START, src), b)
  {
    assert (src + [b])[..|src|] == src;
  }

  const OPEN := Scan([], false, true, {})

  lemma Opened()
    ensures ScanAll(START, "[") == OPEN
  {
    ScanOne([], '[');
    assert [] + ['['] == "[";
    AsciiTruncates('[');
  }

  /** One byte more inside a set, with or without a meaning of its own there. */
  lemma ScanMark(st: Scan, src: string, b: byte)
    requires ScanAll(START, src) == st && st.inSet && !st.escape && (b == '^' || b == '-')
    ensures ScanAll(START, src + [b]) == st.(members := st.members + {b})
  {
    ScanOne(src, b);
    AsciiTruncates(b);
  }

  lemma ScanClose(st: Scan, src: string)
    requires ScanAll(START, src) == st && st.inSet && !st.escape && st.items == []
    ensures Compile(src + "]") == [Close(st.members)] && Complete(src + "]")
  {
    var b: byte := ']';
    ScanOne(src, b);
    AsciiTruncates(b);
    assert src + [b] == src + "]";
  }

  lemma CompileOneOf(m: Bytes)
    requires InSet(m)
    ensures Compile("[" + m + "]") == [SetSymbol(SetOf(m))] && Complete("[" + m + "]")
  {
    Opened();
    ScanSet(OPEN, "[", m);
    ScanClose(OPEN.(members := SetOf(m)), "[" + m);
    NoMarks(m);
  }

  lemma NoMarks(m: Bytes)
    requires InSet(m)
    ensures '-' !in SetOf(m) && '^' !in SetOf(m) && {} + SetOf(m) == SetOf(m)
  {
  }

  lemma CompileNoneOf(m: Bytes)
    requires InSet(m)
    ensures Compile("[^" + m + "]") == [NegSymbol(SetOf(m))] && Complete("[^" + m + "]")
  {
    Opened();
    ScanMark(OPEN, "[", '^');
    assert "[" + ['^'] == "[^";
    var st := OPEN.(members := {} + {'^'});
    ScanSet(st, "[^", m);
    ScanClose(st.(members := st.members + SetOf(m)), "[^" + m);
    NoMarks(m);
    assert st.members + SetOf(m) - {'-'} - {'^'} == SetOf(m);
  }

  lemma CompileFromTo(m: Bytes, n: Bytes)
    requires InSet(m) && InSet(n)
    ensures Compile("[" + m + "-" + n + "]") == [RangSymbol(SetOf(m + n))] && Complete("[" + m + "-" + n + "]")
  {
    Opened();
    ScanSet(OPEN, "[", m);
    var st := OPEN.(members := {} + SetOf(m));
    ScanMark(st, "[" + m, '-');
    assert "[" + m + ['-'] == "[" + m + "-";
    var st' := st.(members := st.members + {'-'});
    ScanSet(st', "[" + m + "-", n);
    ScanClose(st'.(members := st'.members + SetOf(n)), "[" + m + "-" + n);
    NoMarks(m);
    NoMarks(n);
    assert st'.members + SetOf(n) - {'-'} == SetOf(m + n);
  }

  lemma CompileNotFromTo(m: Bytes, n: Bytes)
    requires InSet(m) && InSet(n)
    ensures Compile("[^" + m + "-" + n + "]") == [NegSymbol(SetOf(m + n))] && Complete("[^" + m + "-" + n + "]")
  {
    Opened();
    ScanMark(OPEN, "[", '^');
    assert "[" + ['^'] == "[^";
    var st := OPEN.(members := {} + {'^'});
    ScanSet(st, "[^", m);
    var mid := st.(members := st.members + SetOf(m));
    ScanMark(mid, "[^" + m, '-');
    assert "[^" + m + ['-'] == "[^" + m + "-";
    var st' := mid.(members := mid.members + {'-'});
    ScanSet(st', "[^" + m + "-", n);
    ScanClose(st'.(members := st'.members + SetOf(n)), "[^" + m + "-" + n);
    NoMarks(m);
    NoMarks(n);
    assert st'.members + SetOf(n) - {'-'} - {'^'} == SetOf(m + n);
  }

  lemma CompileSingle(b: byte)
    requires b != '\\' && b != '['
    ensures Complete([b])
    ensures Compile([b]) == [if b == '*' then All else if b == '?' then Any else Normal(b)]
  {
    OneRune(b);
    ScanOne([], b);
    assert [] + [b] == [b];
    AsciiTruncates(b);
  }

  /** The item that a part is compiled to, and nothing is left open behind it. */
  ghost predicate CompilesTo(p: Part, item: Item) {
    Compile(Written(p)) == [item] && Complete(Written(p))
  }

  lemma PartCompiles(p: Part) returns (item: Item)
    requires Proper(p)
    ensures CompilesTo(p, item)
    ensures forall u :: Covers(item, u) <==> Fits(p, u)
  {
    hide Compile, Complete;
    match p
    case AnyString =>
      CompileSingle('*');
      item := All;
    case AnyByte =>
      CompileSingle('?');
      item := Any;
    case Plain(b) =>
      CompileSingle(b);
      item := Normal(b);
    case Quoted(b) =>
      CompileBackslash(b);
      AsciiTruncates(b);
      item := Normal(b);
    case OneOf(m) =>
      CompileOneOf(m);
      item := SetSymbol(SetOf(m));
    case NoneOf(m) =>
      CompileNoneOf(m);
      item := NegSymbol(SetOf(m));
    case FromTo(m, n) =>
      CompileFromTo(m, n);
      item := RangSymbol(SetOf(m + n));
      RangeFits(m, n);
    case NotFromTo(m, n) =>
      CompileNotFromTo(m, n);
      item := NegSymbol(SetOf(m + n));
  }

  lemma RangeFits(m: Bytes, n: Bytes)
    ensures forall u :: Covers(RangSymbol(SetOf(m + n)), u) <==> Fits(FromTo(m, n), u)
  {
    var all := SetOf(m + n);
    assert forall b :: b in all <==> b in m + n;
  }

  // ---- whole patterns

  ghost predicate AllCover(items: seq<Item>, parts: seq<Part>) {
    |items| == |parts| && forall j, u :: 0 <= j < |parts| ==> (Covers(items[j], u) <==> Fits(parts[j], u))
  }

  lemma AsciiPart(p: Part)
    requires Proper(p)
    ensures forall i :: 0 <= i < |Written(p)| ==> Ascii(Written(p)[i])
  {
  }

  lemma {:induction false} PatternCompiles(parts: seq<Part>)
    requires forall p <- parts :: Proper(p)
    ensures AllCover(Pattern(WrittenAll(parts)), parts)
  {
    hide Compile, Covers, Fits, Written, Proper, Complete, Runes, Ascii;
    if parts == [] {
      NothingCompiled();
    } else {
      var p, rest := parts[0], WrittenAll(parts[1..]);
      assert p in parts && parts == [p] + parts[1..];
      var item := PartCompiles(p);
      PatternCompiles(parts[1..]);
      AsciiPart(p);
      AsciiRunes(Written(p), rest);
      CompileConcat(Written(p), Runes(rest));
      var items := [item] + Pattern(rest);
      assert Pattern(WrittenAll(parts)) == items;
      forall j, u | 0 <= j < |parts| ensures Covers(items[j], u) <==> Fits(parts[j], u) {
        assert j > 0 ==> items[j] == Pattern(rest)[j - 1] && parts[j] == parts[1..][j - 1];
      }
    }
  }

  lemma NothingCompiled()
    ensures Pattern([]) == []
  {
    assert Runes([]) == [];
  }

  /** A pattern matches exactly the strings that split into segments, one for each of its parts: any
      string for a star, any one byte for a question mark, itself for any other byte and for any byte
      behind a backslash, a byte that is written in a set, one that is not written in a negated set,
      and one between two that are written in a range. */
  lemma PatternMeans(parts: seq<Part>, t: Bytes)
    requires forall p <- parts :: Proper(p)
    ensures Matches(Pattern(WrittenAll(parts)), t) <==> exists segments :: SplitsInto(parts, t, segments)
  {
    hide Covers, Fits, Pattern, Matches, WrittenAll, Proper;
    var items := Pattern(WrittenAll(parts));
    PatternCompiles(parts);
    MatchesIff(items, t);
    forall segments ensures Splits(items, t, segments) <==> SplitsInto(parts, t, segments) {
    }
  }

  lemma OneSegment(p: Part, t: Bytes)
    ensures (exists segments :: SplitsInto([p], t, segments)) <==> Fits(p, t)
  {
    hide Fits;
    forall segments: seq<Bytes> | |segments| == 1 ensures Concat(segments) == segments[0] {
      assert segments[..0] == [];
    }
    assert Concat([t]) == t;
    if Fits(p, t) {
      assert SplitsInto([p], t, [t]);
    }
  }

  /** A pattern of a single part, written out. */
  lemma OnePart(p: Part, t: Bytes)
    requires Proper(p)
    ensures Matches(Pattern(Written(p)), t) <==> Fits(p, t)
  {
    hide Fits, Pattern, Matches, Proper, Written;
    PatternMeans([p], t);
    OneSegment(p, t);
    assert [p][1..] == [] && WrittenAll([]) == [];
    assert WrittenAll([p]) == Written(p) + [] == Written(p);
  }

  /** The metacharacters one by one, each as a pattern of its own. */
  lemma Metacharacters(m: Bytes, t: Bytes)
    requires InSet(m)
    ensures Matches(Pattern("*"), t)
    ensures Matches(Pattern("?"), t) <==> |t| == 1
    ensures Matches(Pattern("[" + m + "]"), t) <==> |t| == 1 && t[0] in m
    ensures Matches(Pattern("[^" + m + "]"), t) <==> |t| == 1 && t[0] !in m
  {
    hide Pattern, Matches, InSet;
    OnePart(AnyString, t);
    OnePart(AnyByte, t);
    OnePart(OneOf(m), t);
    OnePart(NoneOf(m), t);
  }

  lemma Ranges(m: Bytes, n: Bytes, t: Bytes)
    requires |m| == |n| == 1 && InSet(m) && InSet(n) && m[0] <= n[0]
    ensures Matches(Pattern("[" + m + "-" + n + "]"), t) <==> |t| == 1 && m[0] <= t[0] <= n[0]
    ensures Matches(Pattern("[^" + m + "-" + n + "]"), t) <==> |t| == 1 && t[0] != m[0] && t[0] != n[0]
  {
    hide Pattern, Matches, InSet;
    OnePart(FromTo(m, n), t);
    OnePart(NotFromTo(m, n), t);
    var all := m + n;
    assert all[0] == m[0] && all[1] == n[0] && m[0] in all && n[0] in all;
  }

  // ---- metacharacters inside a set

  /** A star, a question mark and a quoted byte keep their meaning inside a set: they make an item of
      their own, in front of the set. */
  lemma ItemInsideSet(m: Bytes, n: Bytes, b: byte)
    requires InSet(m) && InSet(n) && (b == '*' || b == '?')
    ensures Compile("[" + m + [b] + n + "]") == [if b == '*' then All else Any, SetSymbol(SetOf(m + n))]
  {
    Opened();
    ScanSet(OPEN, "[", m);
    var st := OPEN.(members := {} + SetOf(m));
    ScanOne("[" + m, b);
    AsciiTruncates(b);
    var st' := st.(items := [if b == '*' then All else Any]);
    assert [] + st'.items == st'.items;
    CloseBehind(st', "[" + m + [b], m, n);
  }

  lemma QuotedInsideSet(m: Bytes, n: Bytes, b: byte)
    requires InSet(m) && InSet(n) && Ascii(b)
    ensures Compile("[" + m + ['\\'] + [b] + n + "]") == [Normal(b), SetSymbol(SetOf(m + n))]
  {
    Opened();
    ScanSet(OPEN, "[", m);
    var st := OPEN.(members := {} + SetOf(m));
    ScanOne("[" + m, '\\');
    AsciiTruncates('\\');
    ScanOne("[" + m + ['\\'], b);
    AsciiTruncates(b);
    var st' := st.(items := [Normal(b)]);
    assert [] + st'.items == st'.items;
    CloseBehind(st', "[" + m + ['\\'] + [b], m, n);
  }

  /** The rest of a set behind one item. */
  lemma CloseBehind(st: Scan, src: string, m: Bytes, n: Bytes)
    requires InSet(m) && InSet(n) && ScanAll(START, src) == st && st.inSet && !st.escape && st.members == SetOf(m)
    ensures Compile(src + n + "]") == st.items + [SetSymbol(SetOf(m + n))]
  {
    ScanSet(st, src, n);
    var b: byte := ']';
    ScanOne(src + n, b);
    AsciiTruncates(b);
    assert src + n + [b] == src + n + "]";
    NoMarks(m);
    NoMarks(n);
    assert SetOf(m) + SetOf(n) == SetOf(m + n);
  }

  lemma TwoItems(first: Item, second: Item, t: Bytes)
    requires second != All
    ensures Matches([first, second], t) <==>
            |t| > 0 && Accepts(second, t[|t| - 1]) && (first == All || (|t| == 2 && Accepts(first, t[0])))
  {
    hide Accepts;
    var items := [first, second];
    assert items[..1] == [first];
    if |t| > 0 {
      var front := t[..|t| - 1];
      OneItem(first, front);
      assert |front| == 1 ==> front[0] == t[0];
    }
  }

  lemma OneItem(item: Item, t: Bytes)
    ensures Matches([item], t) <==> item == All || (|t| == 1 && Accepts(item, t[0]))
  {
    hide Accepts;
    assert [item][..0] == [];
    if item == All {
      StarMatches(t);
    }
  }

  /** So a set with one of them inside matches what that matches, followed by a byte of the set. */
  lemma InsideSet(m: Bytes, n: Bytes, t: Bytes)
    requires InSet(m) && InSet(n)
    ensures Matches(Pattern("[" + m + ['*'] + n + "]"), t) <==> |t| > 0 && t[|t| - 1] in m + n
    ensures Matches(Pattern("[" + m + ['?'] + n + "]"), t) <==> |t| == 2 && t[1] in m + n
  {
    hide Matches, Compile, Runes;
    InsideIsAscii(m, n, '*');
    InsideIsAscii(m, n, '?');
    ItemInsideSet(m, n, '*');
    ItemInsideSet(m, n, '?');
    TwoItems(All, SetSymbol(SetOf(m + n)), t);
    TwoItems(Any, SetSymbol(SetOf(m + n)), t);
  }

  lemma QuotedInside(m: Bytes, n: Bytes, b: byte, t: Bytes)
    requires InSet(m) && InSet(n) && Ascii(b)
    ensures Matches(Pattern("[" + m + ['\\'] + [b] + n + "]"), t) <==> |t| == 2 && t[0] == b && t[1] in m + n
  {
    hide Matches, Compile, Runes;
    InsideIsAscii(m, [b] + n, '\\');
    assert "[" + m + ['\\'] + [b] + n + "]" == "[" + m + ['\\'] + ([b] + n) + "]";
    QuotedInsideSet(m, n, b);
    TwoItems(Normal(b), SetSymbol(SetOf(m + n)), t);
  }

  /** ASCII text is compiled byte by byte. */
  lemma InsideIsAscii(m: Bytes, n: Bytes, b: byte)
    requires InSet(m) && (forall i :: 0 <= i < |n| ==> Ascii(n[i])) && Ascii(b)
    ensures Pattern("[" + m + [b] + n + "]") == Compile("[" + m + [b] + n + "]")
  {
    hide Compile;
    var s: Bytes := "[" + m + [b] + n + "]";
    AsciiRunes(s, []);
    assert s + [] == s && Runes([]) == [];
  }

  // ---- text beyond ASCII

  /** The UTF-8 form of a rune (section 3 of RFC 3629). */
  function Encoded(rune: char): Bytes {
    var r := rune as int;
    if r < 0x80 then [rune]
    else if r < 0x800 then [(0xC0 + r / 0x40) as char, (0x80 + r % 0x40) as char]
    else if r < 0x1_0000 then
      [(0xE0 + r / 0x1000) as char, (0x80 + r / 0x40 % 0x40) as char, (0x80 + r % 0x40) as char]
    else
      [(0xF0 + r / 0x4_0000) as char, (0x80 + r / 0x1000 % 0x40) as char, (0x80 + r / 0x40 % 0x40) as char,
       (0x80 + r % 0x40) as char]
  }

  function EncodedAll(text: string): Bytes {
    if text == [] then [] else Encoded(text[0]) + EncodedAll(text[1..])
  }

  lemma FirstOfEncoded(rune: char, rest: Bytes)
    ensures FirstRune(Encoded(rune) + rest) == (rune, |Encoded(rune)|)
  {
    hide FirstRune;
    var r := rune as int;
    if r < 0x80 {
      OneByteRune(rune, rest);
    } else if r < 0x800 {
      TwoByteRune(rune, rest);
    } else if r < 0x1_0000 {
      ThreeByteRune(rune, rest);
    } else {
      FourByteRune(rune, rest);
    }
  }

  lemma OneByteRune(b: byte, rest: Bytes)
    requires Ascii(b)
    ensures FirstRune([b] + rest) == (b, 1)
  {
  }

  lemma TwoByteRune(rune: char, rest: Bytes)
    requires 0x80 <= rune as int < 0x800
    ensures FirstRune(Encoded(rune) + rest) == (rune, |Encoded(rune)|) && |Encoded(rune)| == 2
  {
    var r := rune as int;
    var b0, b1 := 0xC0 + r / 0x40, 0x80 + r % 0x40;
    var s := Encoded(rune) + rest;
    assert s[0] as int == b0 && s[1] as int == b1;
    assert b0 % 0x20 * 0x40 + b1 % 0x40 == r;
  }

  lemma ThreeByteRune(rune: char, rest: Bytes)
    requires 0x800 <= rune as int < 0x1_0000
    ensures FirstRune(Encoded(rune) + rest) == (rune, |Encoded(rune)|) && |Encoded(rune)| == 3
  {
    var r := rune as int;
    var b0, b1, b2 := 0xE0 + r / 0x1000, 0x80 + r / 0x40 % 0x40, 0x80 + r % 0x40;
    var s := Encoded(rune) + rest;
    assert s[0] as int == b0 && s[1] as int == b1 && s[2] as int == b2;
    assert b0 % 0x10 == r / 0x1000 && b1 % 0x40 == r / 0x40 % 0x40 && b2 % 0x40 == r % 0x40;
    assert b0 % 0x10 * 0x1000 + b1 % 0x40 * 0x40 + b2 % 0x40 == r;
    assert r < 0xD800 || 0xE000 <= r;
    assert Second(s[0], s[1]) && Continues(s[2]);
  }

  lemma FourByteRune(rune: char, rest: Bytes)
    requires 0x1_0000 <= rune as int
    ensures FirstRune(Encoded(rune) + rest) == (rune, |Encoded(rune)|) && |Encoded(rune)| == 4
  {
    hide Second;
    var r := rune as int;
    var b0, b1, b2, b3 := 0xF0 + r / 0x4_0000, 0x80 + r / 0x1000 % 0x40, 0x80 + r / 0x40 % 0x40, 0x80 + r % 0x40;
    var s := Encoded(rune) + rest;
    assert s[0] as int == b0 && s[1] as int == b1 && s[2] as int == b2 && s[3] as int == b3;
    FourSecond(r, s[0], s[1]);
    FourDigits(r);
  }

  lemma FourSecond(r: nat, b0: byte, b1: byte)
    requires 0x1_0000 <= r < 0x11_0000
    requires b0 as int == 0xF0 + r / 0x4_0000 && b1 as int == 0x80 + r / 0x1000 % 0x40
    ensures Second(b0, b1) && 0xF0 <= b0 as int <= 0xF4
  {
  }

  lemma FourDigits(r: nat)
    requires r < 0x11_0000
    ensures (0xF0 + r / 0x4_0000) % 0x08 == r / 0x4_0000
    ensures (0x80 + r / 0x1000 % 0x40) % 0x40 == r / 0x1000 % 0x40
    ensures (0x80 + r / 0x40 % 0x40) % 0x40 == r / 0x40 % 0x40 && (0x80 + r % 0x40) % 0x40 == r % 0x40
    ensures r / 0x4_0000 * 0x4_0000 + r / 0x1000 % 0x40 * 0x1000 + r / 0x40 % 0x40 * 0x40 + r % 0x40 == r
  {
    var a := r / 0x40;
    var b := a / 0x40;
    LowBits(r);
    LowBits(a);
    LowBits(b);
    Quotients(r);
  }

  lemma LowBits(n: nat)
    ensures (0x80 + n % 0x40) % 0x40 == n % 0x40 && n == n / 0x40 * 0x40 + n % 0x40
  {
  }

  lemma Quotients(r: nat)
    ensures r / 0x1000 == r / 0x40 / 0x40 && r / 0x4_0000 == r / 0x40 / 0x40 / 0x40
  {
  }

  /** The runes of encoded text are the text, so that a pattern beyond ASCII is compiled rune by rune. */
  lemma {:induction false} RunesOfEncoded(text: string)
    ensures Runes(EncodedAll(text)) == text && Pattern(EncodedAll(text)) == Compile(text)
  {
    hide FirstRune, Encoded, Compile;
    if text != [] {
      var first, rest := Encoded(text[0]), EncodedAll(text[1..]);
      FirstOfEncoded(text[0], rest);
      RunesOfEncoded(text[1..]);
      assert first != [] by { EncodedIsSomething(text[0]); }
      assert (first + rest)[|first|..] == rest;
      assert text == [text[0]] + text[1..];
    }
  }

  lemma EncodedIsSomething(rune: char)
    ensures Encoded(rune) != []
  {
  }
}
