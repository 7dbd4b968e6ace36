/** Lines that are no part of a printed message (resp/parser/parser.go): inline commands, and lines
    that are refused. Everything is said of whole inputs, and of the bytes that follow. */
module TextLines {
  import opened Bytes
  import opened Reply
  import opened Parser
  import opened RoundTrip

  // ---- the wire format

  /** How each reply is printed, as the protocol has it: a mark, a text and a line break, and lengths
      in decimal ahead of what they count. */
  lemma WireFormat(text: Bytes, n: int, args: seq<Option<Bytes>>)
    ensures ToBytes(Status(text)) == "+" + text + "\r\n"
    ensures ToBytes(Err(text)) == "-" + text + "\r\n"
    ensures ToBytes(Int(n)) == ":" + FormatInt(n) + "\r\n"
    ensures text != [] ==> ToBytes(Bulk(text)) == "$" + FormatInt(|text|) + "\r\n" + text + "\r\n"
    ensures ToBytes(NullBulk) == "$-1\r\n" && ToBytes(EmptyMultiBulk) == "*0\r\n"
    ensures ToBytes(MultiBulk([])) == "*0\r\n"
    ensures ToBytes(MultiBulk([Some("get"), None])) == "*2\r\n$3\r\nget\r\n$-1\r\n"
  {
    hide *;
    LineFormat(text, n);
    BulkFormat(text);
    TwoFormat();
    NullFormat();
  }

  lemma LineFormat(text: Bytes, n: int)
    ensures ToBytes(Status(text)) == "+" + text + "\r\n"
    ensures ToBytes(Err(text)) == "-" + text + "\r\n"
    ensures ToBytes(Int(n)) == ":" + FormatInt(n) + "\r\n"
  {
  }

  lemma BulkFormat(text: Bytes)
    ensures text != [] ==> ToBytes(Bulk(text)) == "$" + FormatInt(|text|) + "\r\n" + text + "\r\n"
  {
  }

  lemma NullFormat()
    ensures ToBytes(NullBulk) == "$-1\r\n" && ToBytes(EmptyMultiBulk) == "*0\r\n" && ToBytes(MultiBulk([])) == "*0\r\n"
  {
    assert Itoa(0) == "0";
  }

  lemma TwoFormat()
    ensures ToBytes(MultiBulk([Some("get"), None])) == "*2\r\n$3\r\nget\r\n$-1\r\n"
  {
    var args: seq<Option<Bytes>> := [Some("get"), None];
    assert Itoa(3) == "3" && Itoa(2) == "2";
    assert PrintArg(args[0]) == "$3\r\nget\r\n" && PrintArg(args[1]) == "$-1\r\n";
    assert args[1..] == [None] && args[1..][1..] == [];
    assert PrintArgs(args[1..]) == "$-1\r\n";
  }

  // ---- inline commands

  /** The words, with one space between any two. */
  function Joined(words: seq<Bytes>): Bytes
    requires words != []
  {
    if |words| == 1 then words[0] else words[0] + " " + Joined(words[1..])
  }

  /** A word that an inline command can carry. */
  predicate InlineWord(word: Bytes) {
    ' ' !in word && '\n' !in word
  }

  /** The first byte of the line is none of those that start something else. */
  predicate StartsInline(line: Bytes) {
    line == [] || (line[0] != '+' && line[0] != '-' && line[0] != ':' && line[0] != '*' && line[0] != '$')
  }

  lemma {:induction false} SplitRest(w: Bytes, rest: Bytes)
    requires ' ' !in w
    ensures Split(w + " " + rest, ' ') == [w] + Split(rest, ' ')
  {
    var s := w + " " + rest;
    if w == [] {
      assert s[1..] == rest;
    } else {
      assert s[1..] == w[1..] + " " + rest;
      SplitRest(w[1..], rest);
      assert [w[0]] + w[1..] == w;
    }
  }

  lemma {:induction false} SplitWhole(w: Bytes)
    requires ' ' !in w
    ensures Split(w, ' ') == [w]
  {
    if w != [] {
      SplitWhole(w[1..]);
      assert [w[0]] + w[1..] == w;
    }
  }

  lemma {:induction false} SplitJoined(words: seq<Bytes>)
    requires words != [] && forall w <- words :: InlineWord(w)
    ensures Split(Joined(words), ' ') == words && '\n' !in Joined(words)
  {
    hide Split;
    assert words[0] in words;
    if |words| == 1 {
      SplitWhole(words[0]);
    } else {
      SplitJoined(words[1..]);
      SplitRest(words[0], Joined(words[1..]));
      assert words == [words[0]] + words[1..];
    }
  }

  lemma InlineStep(line: Bytes, words: seq<Bytes>, rest: Bytes)
    requires Split(line, ' ') == words && StartsInline(line)
    ensures StepHeader(line + CRLF, rest) == Next(IDLE, rest, [Data(MultiBulk(Present(words)))])
  {
    hide Split;
    var msg := line + CRLF;
    assert msg[..|msg| - 2] == line;
    assert line != [] ==> msg[0] == line[0];
    assert line == [] ==> msg[0] == '\r';
  }

  /** An inline command: any words without a space or a line feed, however many and some of them empty,
      with single spaces between them, on a line that does not start like something else, are delivered
      as one command of exactly these words, and reading goes on behind the line. */
  lemma InlineCommand(words: seq<Bytes>, rest: Bytes)
    requires words != [] && (forall w <- words :: InlineWord(w)) && StartsInline(Joined(words))
    ensures Parse(Joined(words) + ("\r\n" + rest)) == Prepend([Data(MultiBulk(Present(words)))], Parse(rest))
    ensures Parse(Joined(words) + "\r\n") == Outcome([Data(MultiBulk(Present(words))), IoErr(true)], Closed)
  {
    hide Parse, StepHeader, Joined, Split, Present, InlineWord, StartsInline;
    var out := Data(MultiBulk(Present(words)));
    SplitJoined(words);
    forall tail ensures Parse(Joined(words) + (CRLF + tail)) == Prepend([out], Parse(tail)) {
      InlineStep(Joined(words), words, tail);
      RunWholeLine(Joined(words), tail, out);
    }
    assert CRLF + [] == "\r\n" && Joined(words) + (CRLF + []) == Joined(words) + "\r\n";
    assert Parse([]) == Outcome([IoErr(true)], Closed) by { NothingPrinted(); }
    assert [out] + [IoErr(true)] == [out, IoErr(true)];
  }

  // ---- single lines of the other kinds

  /** A status or an error, alone on a line, is delivered with the text behind its mark. */
  lemma MarkedText(text: Bytes, rest: Bytes)
    requires '\n' !in text
    ensures Parse("+" + text + ("\r\n" + rest)) == Prepend([Data(Status(text))], Parse(rest))
    ensures Parse("-" + text + ("\r\n" + rest)) == Prepend([Data(Err(text))], Parse(rest))
  {
    hide Parse, StepHeader;
    MarkedSteps(text, rest);
    RunWholeLine("+" + text, rest, Data(Status(text)));
    RunWholeLine("-" + text, rest, Data(Err(text)));
  }

  lemma MarkedSteps(text: Bytes, rest: Bytes)
    ensures StepHeader("+" + text + CRLF, rest) == Next(IDLE, rest, [Data(Status(text))])
    ensures StepHeader("-" + text + CRLF, rest) == Next(IDLE, rest, [Data(Err(text))])
  {
    var a, b := "+" + text + CRLF, "-" + text + CRLF;
    assert a[..|a| - 2][1..] == text && b[..|b| - 2][1..] == text;
  }

  /** And so is an integer. */
  lemma MarkedNumber(n: int, rest: Bytes)
    requires IsInt64(n)
    ensures Parse(":" + FormatInt(n) + ("\r\n" + rest)) == Prepend([Data(Int(n))], Parse(rest))
  {
    hide Parse, StepHeader, FormatInt;
    FormatIntHasNoLF(n);
    NumberStep(n, rest);
    RunWholeLine(":" + FormatInt(n), rest, Data(Int(n)));
  }

  lemma NumberStep(n: int, rest: Bytes)
    requires IsInt64(n)
    ensures StepHeader(":" + FormatInt(n) + CRLF, rest) == Next(IDLE, rest, [Data(Int(n))])
  {
    hide FormatInt, ParseInt;
    ParseIntOfFormatInt(n);
    var line := ":" + FormatInt(n) + CRLF;
    assert line[..|line| - 2][1..] == FormatInt(n);
  }

  // ---- lines that are refused

  /** A line that ends in a bare line feed is answered with a protocol error, and reading goes on behind
      it; an empty one ends the goroutine. */
  lemma BareLineFeed(text: Bytes, rest: Bytes)
    requires '\n' !in text && (text == [] || text[|text| - 1] != '\r')
    ensures text != [] ==> Parse(text + ("\n" + rest)) == Prepend([ProtocolErr(text + "\n")], Parse(rest))
    ensures text == [] ==> Parse(text + ("\n" + rest)) == Outcome([], Panicked)
  {
    hide RunFrom;
    var s := text + ("\n" + rest);
    LineEndFinds(s, |text|);
    var n := LineEnd(s);
    assert forall i :: 0 <= i < |text| ==> s[i] == text[i];
    assert s[..|text| + 1] == text + "\n" && s[|text| + 1..] == rest;
    if text != [] {
      assert s[n - 1] == text[n - 1];
      Unfold(s);
    } else {
      UnfoldStop(s);
    }
  }

  /** A count that is no number, or a length that is none, is answered with a protocol error too. */
  lemma BadHeader(mark: byte, text: Bytes, rest: Bytes)
    requires mark == '*' || mark == '$'
    requires '\n' !in text && text != [] && !IsDigit(text[|text| - 1])
    ensures Parse([mark] + text + ("\r\n" + rest)) == Prepend([ProtocolErr([mark] + text + "\r\n")], Parse(rest))
  {
    hide Parse, StepHeader;
    BadHeaderStep(mark, text, rest);
    RunWholeLine([mark] + text, rest, ProtocolErr([mark] + text + "\r\n"));
  }

  lemma BadHeaderStep(mark: byte, text: Bytes, rest: Bytes)
    requires mark == '*' || mark == '$'
    requires text != [] && !IsDigit(text[|text| - 1])
    ensures StepHeader([mark] + text + CRLF, rest) == Next(IDLE, rest, [ProtocolErr([mark] + text + "\r\n")])
  {
    hide DigitsValue;
    var msg := [mark] + text + CRLF;
    assert msg[1..|msg| - 2] == text;
    NoNumber(text);
  }

  lemma NoNumber(text: Bytes)
    requires text != [] && !IsDigit(text[|text| - 1])
    ensures ParseInt(text) == None && ParseUint(text, MAX_UINT32) == None
  {
    hide DigitsValue;
    if |text| > 1 {
      assert text[1..][|text| - 2] == text[|text| - 1];
    }
  }

  // ---- inside a message

  /** A length that is no number, and bytes that do not end where their length says, are answered with a
      protocol error, the message is given up, and what follows is read afresh. */
  lemma BadLengthInside(args: seq<Bytes>, count: nat, text: Bytes, rest: Bytes)
    requires |args| < count && '\n' !in text && (text == [] || !IsDigit(text[|text| - 1]))
    ensures RunFrom(Reading(args, count), ['$'] + text + ("\r\n" + rest)) ==
            Prepend([ProtocolErr(['$'] + text + "\r\n")], Parse(rest))
  {
    hide ParseInt;
    var line := ['$'] + text;
    StepText(Reading(args, count), line, rest);
    var msg := line + CRLF;
    assert msg[..|msg| - 2] == line && line[1..] == text;
    if text != [] {
      NoNumber(text);
    } else {
      NoIntegerText([], []);
      assert [] + text == [];
    }
  }

  lemma BadEndInside(args: seq<Bytes>, count: nat, body: Bytes, rest: Bytes)
    requires |args| < count && |body| > 2 && |body| <= MAX_SLICE && body[|body| - 2..] != "\r\n"
    ensures RunFrom(Awaiting(args, count, |body| - 2), body + rest) == Prepend([ProtocolErr(body)], Parse(rest))
  {
    var s := body + rest;
    assert s[..|body|] == body && s[|body|..] == rest;
    assert body[|body| - 2..] == [body[|body| - 2], body[|body| - 1]];
  }

  /** An input that ends inside a message delivers nothing of it: the end is unexpected if some of the
      bytes awaited have come. */
  lemma EndsInside(args: seq<Bytes>, count: nat, len: nat, s: Bytes)
    requires |args| < count && 0 < len && len + 2 <= MAX_SLICE && |s| < len + 2
    ensures RunFrom(Awaiting(args, count, len), s) == Outcome([IoErr(s == [])], Closed)
  {
  }

  lemma EndsBetween(args: seq<Bytes>, count: nat, s: Bytes)
    requires |args| < count && '\n' !in s
    ensures RunFrom(Reading(args, count), s) == Outcome([IoErr(true)], Closed)
  {
    assert forall i :: 0 <= i < |s| ==> s[i] in s;
  }

  /** The lengths that a bulk reply can be announced with: 0, and any negative one but -1, are refused. */
  lemma BulkLengths(len: int, rest: Bytes)
    requires IsInt64(len) && len <= 0
    ensures Parse("$" + FormatInt(len) + ("\r\n" + rest)) ==
            Prepend([if len == -1 then Data(NullBulk) else ProtocolErr("$" + FormatInt(len) + "\r\n")], Parse(rest))
  {
    hide Parse, StepHeader, FormatInt;
    FormatIntHasNoLF(len);
    LengthStep(len, rest);
    RunWholeLine("$" + FormatInt(len), rest,
                 if len == -1 then Data(NullBulk) else ProtocolErr("$" + FormatInt(len) + CRLF));
  }

  lemma LengthStep(len: int, rest: Bytes)
    requires IsInt64(len) && len <= 0
    ensures StepHeader("$" + FormatInt(len) + CRLF, rest) ==
            Next(IDLE, rest, [if len == -1 then Data(NullBulk) else ProtocolErr("$" + FormatInt(len) + CRLF)])
  {
    hide FormatInt, ParseInt;
    ParseIntOfFormatInt(len);
    SomeDigits(len);
    var msg := "$" + FormatInt(len) + CRLF;
    assert msg[1..|msg| - 2] == FormatInt(len);
  }

  lemma SomeDigits(n: int)
    ensures FormatInt(n) != []
  {
  }
}
