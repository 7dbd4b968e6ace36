/** Printing replies and parsing the bytes: what comes back, and exactly when. */
module RoundTrip {
  import opened Bytes
  import opened Reply
  import opened Parser

  /** An argument the wire can carry anywhere in a multi-bulk reply: nil, or non-empty and
      not starting with `$`. */
  predicate PlainArg(arg: Option<Bytes>) {
    arg.Some? ==> arg.value != [] && arg.value[0] != '$' && |arg.value| + 2 <= MAX_SLICE
  }

  /** The last argument may also be empty. */
  predicate LastArg(arg: Option<Bytes>) {
    PlainArg(arg) || arg == Some([])
  }

  predicate WireArgs(args: seq<Option<Bytes>>) {
    args != [] ==> (forall i :: 0 <= i < |args| - 1 ==> PlainArg(args[i])) && LastArg(args[|args| - 1])
  }

  predicate WireSafe(r: Reply) {
    match r
    case Status(text) => LF !in text
    case Err(text) => LF !in text
    case Int(code) => IsInt64(code)
    case Bulk(arg) => arg != [] && PlainArg(Some(arg))
    case MultiBulk(args) => |args| <= MAX_UINT32 && WireArgs(args)
    case _ => true
  }

  /** The line break after a last, empty argument is read as a blank inline command. */
  const BLANK := Data(MultiBulk([Some([])]))

  function Stray(args: seq<Option<Bytes>>): seq<Payload> {
    if args != [] && args[|args| - 1] == Some([]) then [BLANK] else []
  }

  /** What a wire-safe reply is read back as: nil arguments become empty. */
  function Image(r: Reply): seq<Payload> {
    match r
    case MultiBulk(args) =>
      if args == [] then [Data(EmptyMultiBulk)]
      else [Data(MultiBulk(Present(Filled(args))))] + Stray(args)
    case _ => [Data(r)]
  }

  function Images(rs: seq<Reply>): seq<Payload> {
    if rs == [] then [] else Image(rs[0]) + Images(rs[1..])
  }

  // ---- single lines

  lemma {:induction false} LineEndOf(text: Bytes, rest: Bytes)
    requires LF !in text
    ensures LineEnd(text + (CRLF + rest)) == |text| + 1
  {
    var s := text + (CRLF + rest);
    if text == [] {
      assert s[1..] == [LF] + rest;
    } else {
      assert s[1..] == text[1..] + (CRLF + rest);
      LineEndOf(text[1..], rest);
    }
  }

  lemma ReadTextLine(text: Bytes, rest: Bytes)
    requires LF !in text
    ensures ReadLine(0, text + (CRLF + rest)) == Read(text + CRLF, rest)
  {
    var s := text + (CRLF + rest);
    LineEndOf(text, rest);
    assert s[..|text| + 2] == text + CRLF && s[|text| + 2..] == rest;
  }

  lemma ReadBulkLine(body: Bytes, rest: Bytes)
    requires body != [] && |body| + 2 <= MAX_SLICE
    ensures ReadLine(|body|, body + (CRLF + rest)) == Read(body + CRLF, rest)
  {
    var s := body + (CRLF + rest);
    assert s[..|body| + 2] == body + CRLF && s[|body| + 2..] == rest;
  }

  /** One turn of the loop on a text line. */
  lemma StepText(st: State, text: Bytes, rest: Bytes)
    requires st.Inv() && st.bulkLen == 0 && LF !in text
    ensures Step(st, text + (CRLF + rest)) ==
            if st.readingMultiLine then StepBody(st, text + CRLF, rest) else StepHeader(text + CRLF, rest)
  {
    ReadTextLine(text, rest);
  }

  lemma HeaderText(mark: byte, n: int, text: Bytes)
    requires mark != LF && text == [mark] + FormatInt(n)
    ensures LF !in text
    ensures (text + CRLF)[1..|text + CRLF| - 2] == FormatInt(n)
  {
    FormatIntHasNoLF(n);
  }

  // ---- multi-bulk arguments

  /** The state in the middle of a multi-bulk message. */
  function Reading(args: seq<Bytes>, count: nat): State {
    State(true, count, '*', args, 0)
  }

  /** The state of a pending bulk argument. */
  function Awaiting(args: seq<Bytes>, count: nat, len: int): State {
    Reading(args, count).(bulkLen := len)
  }

  /** What follows once an argument has been accepted. */
  function Resume(args: seq<Bytes>, count: nat, rest: Bytes): Outcome
    requires |args| <= count && 0 < count
  {
    if |args| == count then Prepend([Data(MultiBulk(Present(args)))], Parse(rest))
    else RunFrom(Reading(args, count), rest)
  }

  lemma RunLengthLine(args: seq<Bytes>, count: nat, len: int, rest: Bytes)
    requires |args| < count && -1 <= len <= MAX_INT64
    ensures RunFrom(Reading(args, count), "$" + FormatInt(len) + (CRLF + rest)) ==
            if len <= 0 then Resume(args + [[]], count, rest) else RunFrom(Awaiting(args, count, len), rest)
  {
    hide StepBody;
    var text: Bytes := "$" + FormatInt(len);
    var st := Reading(args, count);
    HeaderText('$', len, text);
    StepText(st, text, rest);
    LengthBody(args, count, len, rest);
    if len > 0 {
      Unprepended(RunFrom(Awaiting(args, count, len), rest));
    } else if |args| + 1 < count {
      Unprepended(RunFrom(Reading(args + [[]], count), rest));
    }
  }

  /** A length line inside a message. */
  lemma LengthBody(args: seq<Bytes>, count: nat, len: int, rest: Bytes)
    requires |args| < count && -1 <= len <= MAX_INT64
    ensures StepBody(Reading(args, count), "$" + FormatInt(len) + CRLF, rest) ==
            if len > 0 then Next(Awaiting(args, count, len), rest, [])
            else if |args| + 1 < count then Next(Reading(args + [[]], count), rest, [])
            else Next(IDLE, rest, [Data(MultiBulk(Present(args + [[]])))])
  {
    hide FormatInt, ParseInt, Present;
    var text: Bytes := "$" + FormatInt(len);
    ParseIntOfFormatInt(len);
    assert (text + CRLF)[..|text + CRLF| - 2] == text;
    assert text[1..] == FormatInt(len);
  }

  lemma Unprepended(o: Outcome)
    ensures Prepend([], o) == o
  {
  }

  lemma RunBulkBody(args: seq<Bytes>, count: nat, body: Bytes, rest: Bytes)
    requires |args| < count && body != [] && body[0] != '$' && |body| + 2 <= MAX_SLICE
    ensures RunFrom(Awaiting(args, count, |body|), body + (CRLF + rest)) == Resume(args + [body], count, rest)
  {
    var st := Awaiting(args, count, |body|);
    ReadBulkLine(body, rest);
    assert (body + CRLF)[..|body + CRLF| - 2] == body;
    if |args| + 1 < count {
      Unprepended(RunFrom(Reading(args + [body], count), rest));
    }
  }

  /** One printed argument, other than a non-nil empty one. */
  lemma RunArg(args: seq<Bytes>, count: nat, arg: Option<Bytes>, rest: Bytes)
    requires |args| < count && PlainArg(arg)
    ensures RunFrom(Reading(args, count), PrintArg(arg) + rest) ==
            Resume(args + [Fill(arg)], count, rest)
  {
    hide RunFrom, Resume;
    match arg
    case None =>
      RunLengthLine(args, count, -1, rest);
      assert FormatInt(-1) == "-1";
      assert PrintArg(arg) + rest == "$" + FormatInt(-1) + (CRLF + rest);
    case Some(b) =>
      RunLengthLine(args, count, |b|, b + (CRLF + rest));
      RunBulkBody(args, count, b, rest);
      assert PrintArg(arg) + rest == "$" + FormatInt(|b|) + (CRLF + (b + (CRLF + rest)));
  }

  /** A line that is a message on its own. */
  lemma RunWholeLine(text: Bytes, rest: Bytes, out: Payload)
    requires LF !in text && StepHeader(text + CRLF, rest) == Next(IDLE, rest, [out])
    ensures Parse(text + (CRLF + rest)) == Prepend([out], Parse(rest))
  {
    hide StepHeader, Prepend;
    StepText(IDLE, text, rest);
  }

  lemma BlankHeader(rest: Bytes)
    ensures StepHeader([] + CRLF, rest) == Next(IDLE, rest, [BLANK])
  {
    assert CRLF[..|CRLF| - 2] == [] && [] + CRLF == CRLF;
    assert Split([], ' ') == [[]];
    assert Present([[]]) == [Some([])];
  }

  lemma RunBlankLine(rest: Bytes)
    ensures Parse(CRLF + rest) == Prepend([BLANK], Parse(rest))
  {
    hide Parse, StepHeader;
    BlankHeader(rest);
    RunWholeLine([], rest, BLANK);
    assert [] + (CRLF + rest) == CRLF + rest;
  }

  /** A last, empty argument: the message is complete before its body's line break. */
  lemma RunEmptyLast(args: seq<Bytes>, count: nat, rest: Bytes)
    requires |args| + 1 == count
    ensures RunFrom(Reading(args, count), PrintArg(Some([])) + rest) ==
            Prepend([Data(MultiBulk(Present(args + [[]])))], Prepend([BLANK], Parse(rest)))
  {
    hide RunFrom, Parse;
    RunLengthLine(args, count, 0, CRLF + rest);
    RunBlankLine(rest);
    EmptyArgBytes(rest);
  }

  lemma PrependTwice(a: seq<Payload>, b: seq<Payload>, o: Outcome)
    ensures Prepend(a, Prepend(b, o)) == Prepend(a + b, o)
  {
    Assoc(a, b, o.payloads);
  }

  lemma {:induction false} RunArgs(done: seq<Bytes>, args: seq<Option<Bytes>>, count: nat, rest: Bytes)
    requires |done| + |args| == count && args != [] && WireArgs(args)
    ensures RunFrom(Reading(done, count), PrintArgs(args) + rest) ==
            Prepend([Data(MultiBulk(Present(done + Filled(args))))] + Stray(args), Parse(rest))
    decreases |args|
  {
    hide RunFrom, Parse, PrintArg, PlainArg, Filled, Present, Prepend, WireArgs, Stray;
    var arg := args[0];
    var more := args[1..];
    Assoc(PrintArg(arg), PrintArgs(more), rest);
    FirstArg(args);
    FilledHead(done, args);
    if more == [] {
      PrintNoArgs(rest);
    }
    if arg == Some([]) {
      RunEmptyLast(done, count, rest);
      PrependTwice([Data(MultiBulk(Present(done + [[]])))], [BLANK], Parse(rest));
    } else {
      RunArg(done, count, arg, PrintArgs(more) + rest);
      if more != [] {
        RunArgs(done + [Fill(arg)], more, count, rest);
        Assoc(done, [Fill(arg)], Filled(more));
      } else {
        var out := [Data(MultiBulk(Present(done + Filled(args))))];
        assert out + Stray(args) == out;
      }
    }
  }

  lemma FilledHead(done: seq<Bytes>, args: seq<Option<Bytes>>)
    requires args != []
    ensures done + [Fill(args[0])] + Filled(args[1..]) == done + Filled(args)
    ensures args[1..] == [] ==> done + [Fill(args[0])] == done + Filled(args)
  {
    hide Fill;
    assert Filled(args) == [Fill(args[0])] + Filled(args[1..]);
  }

  lemma FirstArg(args: seq<Option<Bytes>>)
    requires args != [] && WireArgs(args)
    ensures if args[0] == Some([]) then |args| == 1 else PlainArg(args[0])
    ensures args[1..] != [] ==> WireArgs(args[1..]) && Stray(args[1..]) == Stray(args)
    ensures args[1..] == [] ==> Stray(args) == if args[0] == Some([]) then [BLANK] else []
  {
    var more := args[1..];
    assert forall i :: 0 <= i < |more| ==> more[i] == args[i + 1];
  }

  lemma PrintNoArgs(rest: Bytes)
    ensures PrintArgs([]) + rest == rest
  {
  }

  // ---- whole replies

  lemma MultiBulkHeaderLine(count: nat, tail: Bytes)
    requires count <= MAX_UINT32
    ensures LF !in "*" + FormatInt(count)
    ensures StepHeader("*" + FormatInt(count) + CRLF, tail) ==
            if count == 0 then Next(IDLE, tail, [Data(EmptyMultiBulk)])
            else Next(Reading([], count), tail, [])
  {
    HeaderText('*', count, "*" + FormatInt(count));
    ParseUintOfItoa(count, MAX_UINT32);
  }

  lemma BulkHeaderLine(len: int, tail: Bytes)
    requires len == -1 || 0 < len <= MAX_INT64
    ensures LF !in "$" + FormatInt(len)
    ensures StepHeader("$" + FormatInt(len) + CRLF, tail) ==
            if len == -1 then Next(IDLE, tail, [Data(NullBulk)])
            else Next(State(true, 1, '$', [], len), tail, [])
  {
    HeaderText('$', len, "$" + FormatInt(len));
    ParseIntOfFormatInt(len);
  }

  /** A header line that opens a multi-line message. */
  lemma RunOpening(text: Bytes, tail: Bytes, st: State)
    requires LF !in text && st.Inv() && StepHeader(text + CRLF, tail) == Next(st, tail, [])
    ensures Parse(text + (CRLF + tail)) == RunFrom(st, tail)
  {
    hide StepHeader;
    StepText(IDLE, text, tail);
    Unprepended(RunFrom(st, tail));
  }

  lemma RunMultiBulk(args: seq<Option<Bytes>>, rest: Bytes)
    requires |args| <= MAX_UINT32 && WireArgs(args)
    ensures Parse(ToBytes(MultiBulk(args)) + rest) == Prepend(Image(MultiBulk(args)), Parse(rest))
  {
    hide RunFrom, Parse, StepHeader, PrintArgs, WireArgs, Itoa, Prepend, Filled, Present, Stray;
    var text: Bytes := "*" + FormatInt(|args|);
    MultiBulkHeaderLine(|args|, PrintArgs(args) + rest);
    Regroup(text, CRLF, [], PrintArgs(args), rest);
    assert text + CRLF + [] == text + CRLF && [] + (PrintArgs(args) + rest) == PrintArgs(args) + rest;
    if args == [] {
      PrintNoArgs(rest);
      RunWholeLine(text, rest, Data(EmptyMultiBulk));
    } else {
      RunArgs([], args, |args|, rest);
      assert [] + Filled(args) == Filled(args);
      RunOpening(text, PrintArgs(args) + rest, Reading([], |args|));
    }
  }

  lemma Regroup(a: Bytes, b: Bytes, c: Bytes, d: Bytes, e: Bytes)
    ensures a + b + c + d + e == a + (b + (c + (d + e)))
  {
  }

  lemma BulkBody(arg: Bytes, rest: Bytes)
    requires arg != [] && PlainArg(Some(arg))
    ensures RunFrom(State(true, 1, '$', [], |arg|), arg + (CRLF + rest)) == Prepend([Data(Bulk(arg))], Parse(rest))
  {
    hide Prepend;
    ReadBulkLine(arg, rest);
    assert (arg + CRLF)[..|arg + CRLF| - 2] == arg;
    assert [] + [arg] == [arg];
  }

  lemma RunBulk(arg: Bytes, rest: Bytes)
    requires arg != [] && PlainArg(Some(arg))
    ensures Parse(ToBytes(Bulk(arg)) + rest) == Prepend([Data(Bulk(arg))], Parse(rest))
  {
    hide RunFrom, Parse, StepHeader;
    var text: Bytes := "$" + FormatInt(|arg|);
    BulkHeaderLine(|arg|, arg + (CRLF + rest));
    RunOpening(text, arg + (CRLF + rest), State(true, 1, '$', [], |arg|));
    BulkBody(arg, rest);
    Regroup(text, CRLF, arg, CRLF, rest);
  }

  /** The text of a reply that is printed on one line. */
  function LineText(r: Reply): Bytes
    requires !r.Bulk? && !r.MultiBulk?
  {
    match r
    case Status(text) => "+" + text
    case Err(text) => "-" + text
    case Int(code) => ":" + FormatInt(code)
    case NullBulk => "$" + FormatInt(-1)
    case EmptyMultiBulk => "*" + FormatInt(0)
  }

  lemma MarkedLine(mark: byte, text: Bytes)
    ensures ([mark] + text + CRLF)[..|[mark] + text + CRLF| - 2] == [mark] + text
    ensures ([mark] + text)[1..] == text
  {
  }

  lemma HeaderLine(r: Reply, rest: Bytes)
    requires WireSafe(r) && !r.Bulk? && !r.MultiBulk?
    ensures LF !in LineText(r)
    ensures StepHeader(LineText(r) + CRLF, rest) == Next(IDLE, rest, [Data(r)])
  {
    match r
    case Status(text) => MarkedLine('+', text);
    case Err(text) => MarkedLine('-', text);
    case Int(code) =>
      HeaderText(':', code, LineText(r));
      ParseIntOfFormatInt(code);
      MarkedLine(':', FormatInt(code));
    case NullBulk => BulkHeaderLine(-1, rest);
    case EmptyMultiBulk => MultiBulkHeaderLine(0, rest);
  }

  lemma LineBytes(r: Reply)
    requires !r.Bulk? && !r.MultiBulk?
    ensures ToBytes(r) == LineText(r) + CRLF
  {
    assert FormatInt(-1) == "-1" && FormatInt(0) == "0";
  }

  /** Replies printed on one line. */
  lemma RunLine(r: Reply, rest: Bytes)
    requires WireSafe(r) && !r.Bulk? && !r.MultiBulk?
    ensures Parse(ToBytes(r) + rest) == Prepend([Data(r)], Parse(rest))
  {
    hide Parse, StepHeader, ToBytes, LineText;
    LineBytes(r);
    HeaderLine(r, rest);
    Assoc(LineText(r), CRLF, rest);
    RunWholeLine(LineText(r), rest, Data(r));
  }

  lemma RunPrinted(r: Reply, rest: Bytes)
    requires WireSafe(r)
    ensures Parse(ToBytes(r) + rest) == Prepend(Image(r), Parse(rest))
  {
    hide Parse, ToBytes, PlainArg, WireArgs;
    match r
    case MultiBulk(args) => RunMultiBulk(args, rest);
    case Bulk(arg) => RunBulk(arg, rest);
    case _ => RunLine(r, rest);
  }

  /** Parsing a stream of printed replies yields exactly those replies, in order, and then
      io.EOF and a closed channel. */
  lemma {:induction false} ParsePrintAll(rs: seq<Reply>)
    requires forall i :: 0 <= i < |rs| ==> WireSafe(rs[i])
    ensures Parse(PrintAll(rs)) == Outcome(Images(rs) + [IoErr(true)], Closed)
  {
    hide ToBytes, Image, WireSafe;
    if rs != [] {
      RunPrinted(rs[0], PrintAll(rs[1..]));
      ParsePrintAll(rs[1..]);
      Assoc(Image(rs[0]), Images(rs[1..]), [IoErr(true)]);
    }
  }

  /** Whatever the input, a message announced with n arguments is sent with exactly n or not at
      all: the first thing sent after its header is that reply or an error. */
  lemma {:induction false} AnnouncedCount(st: State, s: Bytes)
    requires st.Inv() && st.readingMultiLine && st.msgType == '*'
    ensures var sent := RunFrom(st, s).payloads;
            sent != [] && sent[0].Data? ==> sent[0].reply.MultiBulk? && |sent[0].reply.args| == st.expectedArgsCount
    decreases |s|
  {
    hide ReadLine;
    match Step(st, s)
    case Next(st', rest, out) =>
      if out == [] {
        Unprepended(RunFrom(st', rest));
        AnnouncedCount(st', rest);
      }
    case Stop(_, _) =>
  }

  // ---- exactly which replies survive the wire

  /** What a reply comes back as, if it does: nil arguments have become empty. */
  function Returned(r: Reply): Reply {
    match r
    case MultiBulk(args) => if args == [] then EmptyMultiBulk else MultiBulk(Present(Filled(args)))
    case _ => r
  }

  /** The first thing sent is this reply. */
  predicate FirstIs(o: Outcome, r: Reply) {
    o.payloads != [] && o.payloads[0] == Data(r)
  }

  /** The reply is the first thing that is read, whatever follows it. */
  predicate ReadsBack(r: Reply, rest: Bytes) {
    FirstIs(Parse(ToBytes(r) + rest), Returned(r))
  }

  predicate Undollared(args: seq<Bytes>) {
    forall i :: 0 <= i < |args| ==> args[i] == [] || args[i][0] != '$'
  }

  /** No argument of the reply starts with `$`. */
  predicate UndollaredReply(r: Reply) {
    match r
    case Bulk(arg) => Undollared([arg])
    case MultiBulk(args) => Undollared(Filled(args))
    case _ => true
  }

  /** A turn of the loop inside a message never accepts an argument that starts with `$`. */
  lemma StepUndollared(st: State, s: Bytes)
    requires st.Inv() && st.readingMultiLine && Undollared(st.args)
    ensures match Step(st, s)
            case Stop(out, _) => out == [] || out[0].IoErr?
            case Next(st', _, out) =>
              if out == [] then st'.readingMultiLine && Undollared(st'.args)
              else |out| == 1 && (out[0].Data? ==> UndollaredReply(out[0].reply))
  {
    match ReadLine(st.bulkLen, s)
    case Read(msg, rest) =>
      var body := ReadBody(msg, st.(bulkLen := 0));
      if body.Accepted? && body.state.Finished() {
        assert Undollared(body.state.args);
        assert Filled(Present(body.state.args)) == body.state.args;
      }
    case _ =>
  }

  lemma {:induction false} RunUndollared(st: State, s: Bytes)
    requires st.Inv() && st.readingMultiLine && Undollared(st.args)
    ensures var sent := RunFrom(st, s).payloads;
            sent != [] && sent[0].Data? ==> UndollaredReply(sent[0].reply)
    decreases |s|
  {
    hide Undollared, ReadLine, UndollaredReply;
    StepUndollared(st, s);
    match Step(st, s)
    case Next(st', rest, out) =>
      if out == [] {
        Unprepended(RunFrom(st', rest));
        RunUndollared(st', rest);
      }
    case Stop(_, _) =>
  }

  lemma StepBlankInside(args: seq<Bytes>, count: nat, rest: Bytes)
    requires |args| < count
    ensures Step(Reading(args, count), CRLF + rest) == Stop([], Panicked)
  {
    ReadTextLine([], rest);
    assert [] + (CRLF + rest) == CRLF + rest;
  }

  /** The line break after an empty argument that is not the last one ends the goroutine. */
  lemma RunEmptyInside(done: seq<Bytes>, count: nat, rest: Bytes)
    requires |done| + 1 < count
    ensures RunFrom(Reading(done, count), PrintArg(Some([])) + rest) == Outcome([], Panicked)
  {
    hide Step;
    RunLengthLine(done, count, 0, CRLF + rest);
    EmptyArgBytes(rest);
    StepBlankInside(done + [[]], count, rest);
  }

  lemma EmptyArgBytes(rest: Bytes)
    ensures PrintArg(Some([])) + rest == "$" + FormatInt(0) + (CRLF + (CRLF + rest))
  {
  }

  /** A length that is no int64. */
  lemma RunWrongLength(args: seq<Bytes>, count: nat, len: nat, rest: Bytes)
    requires |args| < count && len > MAX_INT64
    ensures var sent := RunFrom(Reading(args, count), "$" + FormatInt(len) + (CRLF + rest)).payloads;
            sent != [] && sent[0].ProtocolErr?
  {
    var text: Bytes := "$" + FormatInt(len);
    HeaderText('$', len, text);
    StepText(Reading(args, count), text, rest);
    ParseIntRefuses(len);
    assert (text + CRLF)[..|text + CRLF| - 2] == text;
    assert text[1..] == FormatInt(len);
  }

  /** An argument that is too long for a slice. */
  lemma RunTooLong(args: seq<Bytes>, count: nat, b: Bytes, rest: Bytes)
    requires |args| < count && |b| + 2 > MAX_SLICE
    ensures var sent := RunFrom(Reading(args, count), PrintArg(Some(b)) + rest).payloads;
            sent == [] || sent[0].ProtocolErr?
  {
    hide RunFrom, Step;
    var tail := b + (CRLF + rest);
    assert PrintArg(Some(b)) + rest == "$" + FormatInt(|b|) + (CRLF + tail);
    if |b| > MAX_INT64 {
      RunWrongLength(args, count, |b|, tail);
    } else {
      RunLengthLine(args, count, |b|, tail);
      NoSlice(Awaiting(args, count, |b|), tail);
    }
  }

  lemma NoSlice(st: State, s: Bytes)
    requires st.Inv() && st.bulkLen + 2 > MAX_SLICE
    ensures RunFrom(st, s) == Outcome([], Panicked)
  {
  }

  lemma {:induction false} BadArgs(done: seq<Bytes>, args: seq<Option<Bytes>>, count: nat, rest: Bytes)
    requires |done| + |args| == count && Undollared(done)
    requires args != [] && !WireArgs(args)
    ensures !FirstIs(RunFrom(Reading(done, count), PrintArgs(args) + rest), MultiBulk(Present(done + Filled(args))))
    decreases |args|
  {
    hide RunFrom, PrintArg, Present, Filled, Undollared, WireArgs, Stray;
    var arg := args[0];
    var more := args[1..];
    Assoc(PrintArg(arg), PrintArgs(more), rest);
    FirstBadArg(done, args);
    FilledHead(done, args);
    if PlainArg(arg) {
      RunArg(done, count, arg, PrintArgs(more) + rest);
      BadArgs(done + [Fill(arg)], more, count, rest);
      Assoc(done, [Fill(arg)], Filled(more));
    } else if arg == Some([]) {
      RunEmptyInside(done, count, PrintArgs(more) + rest);
    } else if |arg.value| + 2 > MAX_SLICE {
      RunTooLong(done, count, arg.value, PrintArgs(more) + rest);
    } else {
      RunUndollared(Reading(done, count), PrintArgs(args) + rest);
      PresentBack(done + Filled(args));
    }
  }

  lemma PresentBack(args: seq<Bytes>)
    ensures Filled(Present(args)) == args
  {
  }

  lemma FirstBadArg(done: seq<Bytes>, args: seq<Option<Bytes>>)
    requires args != [] && !WireArgs(args) && Undollared(done)
    ensures PlainArg(args[0]) ==> args[1..] != [] && !WireArgs(args[1..]) && Undollared(done + [Fill(args[0])])
    ensures args[0] == Some([]) ==> |args| > 1
    ensures !PlainArg(args[0]) && args[0] != Some([]) && |args[0].value| + 2 <= MAX_SLICE ==>
              !Undollared(done + Filled(args))
  {
    var more := args[1..];
    assert forall i :: 0 <= i < |more| ==> more[i] == args[i + 1];
    if args[0].Some? && args[0].value != [] && args[0].value[0] == '$' {
      assert (done + Filled(args))[|done|] == args[0].value;
    }
  }

  /** A printed command is read back as the same command exactly when no argument starts
      with `$`, none but the last is empty, and none is too long. */
  lemma CommandReadsBackIff(args: seq<Option<Bytes>>, rest: Bytes)
    requires 0 < |args| <= MAX_UINT32
    ensures FirstIs(Parse(ToBytes(MultiBulk(args)) + rest), MultiBulk(Present(Filled(args)))) <==> WireArgs(args)
  {
    hide RunFrom, Parse, StepHeader, PrintArgs, WireArgs, Present, Filled, Stray;
    if WireArgs(args) {
      RunMultiBulk(args, rest);
    } else {
      var text: Bytes := "*" + FormatInt(|args|);
      MultiBulkHeaderLine(|args|, PrintArgs(args) + rest);
      Regroup(text, CRLF, [], PrintArgs(args), rest);
      assert text + CRLF + [] == text + CRLF && [] + (PrintArgs(args) + rest) == PrintArgs(args) + rest;
      RunOpening(text, PrintArgs(args) + rest, Reading([], |args|));
      BadArgs([], args, |args|, rest);
      assert [] + Filled(args) == Filled(args);
    }
  }

  /** A message line, and what is sent for it at once. */
  lemma RunSending(text: Bytes, rest: Bytes, out: Payload)
    requires LF !in text && StepHeader(text + CRLF, rest).Next? && StepHeader(text + CRLF, rest).out == [out]
    ensures var sent := Parse(text + (CRLF + rest)).payloads; sent != [] && sent[0] == out
  {
    hide StepHeader;
    StepText(IDLE, text, rest);
  }

  /** More arguments than the header can announce. */
  lemma TooManyArgs(args: seq<Option<Bytes>>, rest: Bytes)
    requires |args| > MAX_UINT32
    ensures !ReadsBack(MultiBulk(args), rest)
  {
    hide Parse, PrintArgs, Filled, Present;
    var text: Bytes := "*" + FormatInt(|args|);
    var tail := PrintArgs(args) + rest;
    HeaderText('*', |args|, text);
    ParseUintRefuses(|args|, MAX_UINT32);
    Regroup(text, CRLF, [], PrintArgs(args), rest);
    assert text + CRLF + [] == text + CRLF && [] + tail == tail;
    RunSending(text, tail, ProtocolErr(text + CRLF));
  }

  lemma MultiBulkReadsBackIff(args: seq<Option<Bytes>>, rest: Bytes)
    ensures ReadsBack(MultiBulk(args), rest) <==> WireSafe(MultiBulk(args))
  {
    hide Parse, ToBytes, WireArgs, Present, Filled;
    if args == [] {
      assert WireArgs([]) by { NoArgsAreSafe(); }
      RunMultiBulk(args, rest);
    } else if |args| > MAX_UINT32 {
      TooManyArgs(args, rest);
    } else {
      CommandReadsBackIff(args, rest);
    }
  }

  lemma NoArgsAreSafe()
    ensures WireArgs([])
  {
  }

  /** A text with a line feed is cut there, or refused. */
  lemma CutLine(mark: byte, text: Bytes, rest: Bytes)
    requires LF in text && (mark == '+' || mark == '-')
    ensures var r := if mark == '+' then Status(text) else Err(text);
            !FirstIs(Parse([mark] + text + CRLF + rest), r)
  {
    hide RunFrom;
    var s := [mark] + text + CRLF + rest;
    var n := LineEnd(s);
    CutAt(mark, text, CRLF + rest);
    assert s == [mark] + text + (CRLF + rest);
    assert 0 < n <= |text|;
    CutStep(mark, text, s, n);
    var r := Step(IDLE, s);
    assert RunFrom(IDLE, s) == Prepend(r.out, RunFrom(r.state, r.rest)) by { Unfold(s); }
  }

  lemma Unfold(s: Bytes)
    requires Step(IDLE, s).Next?
    ensures var r := Step(IDLE, s); RunFrom(IDLE, s) == Prepend(r.out, RunFrom(r.state, r.rest))
  {
  }

  lemma {:induction false} LineEndFinds(s: Bytes, i: nat)
    requires i < |s| && s[i] == LF
    ensures LineEnd(s) <= i
    decreases i
  {
    if s[0] != LF {
      LineEndFinds(s[1..], i - 1);
    }
  }

  lemma CutAt(mark: byte, text: Bytes, rest: Bytes)
    requires LF in text && mark != LF
    ensures 0 < LineEnd([mark] + text + rest) <= |text|
  {
    var s := [mark] + text + rest;
    var i :| 0 <= i < |text| && text[i] == LF;
    assert s[i + 1] == LF && s[0] == mark;
    LineEndFinds(s, i + 1);
  }

  lemma CutStep(mark: byte, text: Bytes, s: Bytes, n: nat)
    requires (mark == '+' || mark == '-') && 0 < n <= |text| && LineEnd(s) == n < |s| && s[0] == mark
    ensures var r := Step(IDLE, s);
      && r.Next? && |r.out| == 1
      && r.out[0] != Data(if mark == '+' then Status(text) else Err(text))
  {
    if s[n - 1] == CR {
      var msg := s[..n + 1];
      assert msg[..|msg| - 2] == s[..n - 1];
    }
  }

  /** A number that is no int64. */
  lemma WrongInt(code: int, rest: Bytes)
    requires !IsInt64(code)
    ensures !ReadsBack(Int(code), rest)
  {
    hide Parse, FormatInt, ParseInt;
    var text: Bytes := ":" + FormatInt(code);
    HeaderText(':', code, text);
    ParseIntRefuses(code);
    MarkedLine(':', FormatInt(code));
    assert ToBytes(Int(code)) + rest == text + (CRLF + rest);
    RunSending(text, rest, ProtocolErr(text + CRLF));
  }

  /** `$-1` without its line break never opens a bulk. */
  lemma EmptyBulk(rest: Bytes)
    ensures !ReadsBack(Bulk([]), rest)
  {
    hide RunFrom, Parse;
    var s: Bytes := "$-1" + rest;
    EmptyBulkStep(rest);
    if Step(IDLE, s).Next? {
      Unfold(s);
    }
    assert Parse(s) == RunFrom(IDLE, s) by { ParseIs(s); }
    UnfoldStop(s);
  }

  lemma ParseIs(s: Bytes)
    ensures Parse(s) == RunFrom(IDLE, s)
  {
  }

  lemma UnfoldStop(s: Bytes)
    ensures match Step(IDLE, s) case Stop(out, ending) => RunFrom(IDLE, s) == Outcome(out, ending) case _ => true
  {
  }

  lemma EmptyBulkStep(rest: Bytes)
    ensures match Step(IDLE, "$-1" + rest)
            case Stop(out, _) => out == [] || out[0].IoErr?
            case Next(_, _, out) => |out| == 1 && !(out[0].Data? && out[0].reply.Bulk?)
  {
    hide SingleLine;
    var s: Bytes := "$-1" + rest;
    var n := LineEnd(s);
    assert s[0] == '$' && s[1] == '-' && s[2] == '1';
    if n < |s| && s[n - 1] == CR {
      var msg := s[..n + 1];
      assert |msg| >= 5;
      NegativeLength(msg[1..|msg| - 2]);
    }
  }

  lemma NegativeLength(s: Bytes)
    requires s != [] && s[0] == '-'
    ensures ParseInt(s).Some? ==> ParseInt(s).value <= 0
  {
  }

  /** A bulk that starts with `$` or is too long. */
  lemma BadBulk(arg: Bytes, rest: Bytes)
    requires arg != [] && !PlainArg(Some(arg))
    ensures !ReadsBack(Bulk(arg), rest)
  {
    hide RunFrom, Parse, StepHeader;
    var text: Bytes := "$" + FormatInt(|arg|);
    var tail := arg + (CRLF + rest);
    Regroup(text, CRLF, arg, CRLF, rest);
    if |arg| > MAX_INT64 {
      WrongBulkHeader(|arg|, tail);
      RunSending(text, tail, ProtocolErr(text + CRLF));
    } else {
      var st := State(true, 1, '$', [], |arg|);
      BulkHeaderLine(|arg|, tail);
      RunOpening(text, tail, st);
      if |arg| + 2 > MAX_SLICE {
        NoSlice(st, tail);
      } else {
        RunUndollared(st, tail);
        assert !Undollared([arg]) by { assert [arg][0] == arg; }
      }
    }
  }

  lemma WrongBulkHeader(len: nat, tail: Bytes)
    requires len > MAX_INT64
    ensures LF !in "$" + FormatInt(len)
    ensures StepHeader("$" + FormatInt(len) + CRLF, tail)
            == Next(IDLE, tail, [ProtocolErr("$" + FormatInt(len) + CRLF)])
  {
    HeaderText('$', len, "$" + FormatInt(len));
    ParseIntRefuses(len);
  }

  /** Which replies come back, whatever follows them: a text without a line feed, an int64, a bulk
      that is not empty and does not start with `$`, and multi-bulk replies as above. */
  lemma ReadsBackIff(r: Reply, rest: Bytes)
    ensures ReadsBack(r, rest) <==> WireSafe(r)
  {
    hide Parse, PlainArg, WireArgs, ReadsBack;
    if WireSafe(r) {
      RunPrinted(r, rest);
      FirstReturned(r, rest);
    } else {
      match r
      case Status(text) => StatusCut(text, rest);
      case Err(text) => ErrCut(text, rest);
      case Int(code) => WrongInt(code, rest);
      case Bulk(arg) =>
        if arg == [] { EmptyBulk(rest); } else { BadBulk(arg, rest); }
      case MultiBulk(args) => MultiBulkReadsBackIff(args, rest);
    }
  }

  lemma FirstReturned(r: Reply, rest: Bytes)
    requires Parse(ToBytes(r) + rest) == Prepend(Image(r), Parse(rest))
    ensures ReadsBack(r, rest)
  {
    hide Parse, ToBytes, Filled, Present, Stray;
  }

  lemma StatusCut(text: Bytes, rest: Bytes)
    requires LF in text
    ensures !ReadsBack(Status(text), rest)
  {
    hide Parse;
    CutLine('+', text, rest);
    assert ToBytes(Status(text)) + rest == ['+'] + text + CRLF + rest;
  }

  lemma ErrCut(text: Bytes, rest: Bytes)
    requires LF in text
    ensures !ReadsBack(Err(text), rest)
  {
    hide Parse;
    CutLine('-', text, rest);
    assert ToBytes(Err(text)) + rest == ['-'] + text + CRLF + rest;
  }

  /** GET of an empty string is answered by a message that never ends. */
  lemma EmptyBulkIsNotSent()
    ensures Parse(ToBytes(Bulk([]))) == Outcome([IoErr(true)], Closed)
  {
    var s := ToBytes(Bulk([]));
    assert s == "$-1" && LF !in s;
  }

  // ---- exactly which streams come back message by message

  /** A reply that comes back and leaves nothing behind. */
  predicate Clean(r: Reply) {
    WireSafe(r) && (r.MultiBulk? ==> Stray(r.args) == [])
  }

  /** Every reply has come back, and then the end of the input. */
  function Each(rs: seq<Reply>): seq<Payload> {
    if rs == [] then [IoErr(true)] else [Data(Returned(rs[0]))] + Each(rs[1..])
  }

  function Blanks(k: nat): seq<Payload> {
    seq(k, _ => BLANK)
  }

  lemma SafeImage(r: Reply)
    requires WireSafe(r)
    ensures Image(r) == if Clean(r) then [Data(Returned(r))] else [Data(Returned(r)), BLANK]
    ensures Data(Returned(r)) == BLANK ==> r.MultiBulk? && |r.args| == 1
  {
    hide WireArgs;
    if Data(Returned(r)) == BLANK {
      assert |Present(Filled(r.args))| == |r.args|;
    }
  }

  lemma BlankIsSafe(r: Reply)
    requires Data(Returned(r)) == BLANK
    ensures WireSafe(r)
  {
    assert r.MultiBulk? && |Present(Filled(r.args))| == 1 == |r.args|;
    assert Present(Filled(r.args))[0] == Some(Fill(r.args[0])) == Some([]);
  }

  /** After a stray blank, the messages never fall into step again. */
  lemma {:induction false} NeverInStep(k: nat, rs: seq<Reply>)
    requires k > 0
    ensures Blanks(k) + Parse(PrintAll(rs)).payloads != Each(rs)
    decreases |rs|
  {
    hide Parse, ToBytes, Returned, Image, WireSafe, Clean;
    if rs == [] {
      assert |Parse(PrintAll(rs)).payloads| >= 1 by { NothingPrinted(); }
    } else if Data(Returned(rs[0])) == BLANK {
      BlankIsSafe(rs[0]);
      RunPrinted(rs[0], PrintAll(rs[1..]));
      SafeImage(rs[0]);
      var more := Parse(PrintAll(rs[1..])).payloads;
      var extra := if Clean(rs[0]) then 0 else 1;
      NeverInStep(k + extra, rs[1..]);
      assert Image(rs[0]) == [BLANK] + Blanks(extra);
      var sent := Blanks(k) + ([BLANK] + Blanks(extra) + more);
      assert sent[1..] == Blanks(k + extra) + more;
      assert Each(rs)[1..] == Each(rs[1..]);
    } else {
      assert (Blanks(k) + Parse(PrintAll(rs)).payloads)[0] == BLANK;
      assert Each(rs)[0] == Data(Returned(rs[0]));
    }
  }

  lemma NothingPrinted()
    ensures Parse(PrintAll([])) == Outcome([IoErr(true)], Closed)
  {
  }

  lemma SameTail(x: Payload, a: seq<Payload>, b: seq<Payload>)
    ensures [x] + a == [x] + b <==> a == b
  {
    assert ([x] + a)[1..] == a && ([x] + b)[1..] == b;
  }

  /** The first reply of a stream. */
  lemma StreamStep(r: Reply, rs: seq<Reply>)
    ensures Parse(PrintAll([r] + rs)).payloads == Each([r] + rs) <==>
            Clean(r) && Parse(PrintAll(rs)).payloads == Each(rs)
  {
    hide Parse, ToBytes, Returned, Image, WireSafe, Clean, PrintAll;
    var more, each, first := Parse(PrintAll(rs)).payloads, Each(rs), Data(Returned(r));
    assert ([r] + rs)[1..] == rs && ([r] + rs)[0] == r;
    assert Each([r] + rs) == [first] + each;
    assert PrintAll([r] + rs) == ToBytes(r) + PrintAll(rs) by { PrintFirst(r, rs); }
    ReadsBackIff(r, PrintAll(rs));
    CleanIsSafe(r);
    if WireSafe(r) {
      RunPrinted(r, PrintAll(rs));
      SafeImage(r);
      NeverInStep(1, rs);
      SameTail(first, more, each);
      SameTail(first, [BLANK] + more, each);
      assert Blanks(1) == [BLANK];
      Assoc([first], [BLANK], more);
      assert [first] + [BLANK] == [first, BLANK];
    }
  }

  lemma PrintFirst(r: Reply, rs: seq<Reply>)
    ensures PrintAll([r] + rs) == ToBytes(r) + PrintAll(rs)
  {
    hide ToBytes;
    assert ([r] + rs)[1..] == rs && ([r] + rs)[0] == r;
  }

  /** A stream of printed replies is read back as exactly those replies, one by one, if and only if
      each of them is clean. */
  lemma {:induction false} StreamIff(rs: seq<Reply>)
    ensures Parse(PrintAll(rs)).payloads == Each(rs) <==> forall i :: 0 <= i < |rs| ==> Clean(rs[i])
    decreases |rs|
  {
    hide Parse, Clean, PrintAll, Each;
    if rs == [] {
      assert Parse(PrintAll(rs)).payloads == Each(rs) by { EachOfNothing(); }
    } else {
      var tail := rs[1..];
      assert rs == [rs[0]] + tail;
      StreamStep(rs[0], tail);
      StreamIff(tail);
      assert forall i :: 0 < i < |rs| ==> rs[i] == tail[i - 1];
      assert forall i :: 0 <= i < |tail| ==> tail[i] == rs[i + 1];
    }
  }

  lemma EachOfNothing()
    ensures Parse(PrintAll([])).payloads == Each([])
  {
    NothingPrinted();
  }

  lemma CleanIsSafe(r: Reply)
    ensures Clean(r) ==> WireSafe(r)
  {
  }

  /** One reply on its own. */
  lemma CleanIff(r: Reply)
    ensures Parse(ToBytes(r)).payloads == [Data(Returned(r)), IoErr(true)] <==> Clean(r)
  {
    hide Parse, ToBytes, Returned, Clean;
    StreamStep(r, []);
    EachOfNothing();
    assert [r] + [] == [r] && [r][1..] == [] && PrintAll([r]) == ToBytes(r) + [] == ToBytes(r);
    assert Each([r]) == [Data(Returned(r))] + [IoErr(true)];
  }

  // ---- commands

  /** Arguments that are non-empty, do not start with `$` and are not too many. */
  predicate PlainLine(line: seq<Bytes>) {
    |line| <= MAX_UINT32 && forall i :: 0 <= i < |line| ==> PlainArg(Some(line[i]))
  }

  lemma PlainIsClean(line: seq<Bytes>)
    ensures PlainLine(line) <==> Clean(MultiBulk(Present(line)))
  {
    var args := Present(line);
    if Clean(MultiBulk(args)) && args != [] {
      assert args[|args| - 1] != Some([]);
      assert forall i :: 0 <= i < |line| ==> PlainArg(args[i]);
    }
  }

  /** A command whose last argument is empty reaches the server as two commands, the second one
      blank, so that two replies come back. */
  lemma EmptyLastIsTwo(line: seq<Bytes>, rest: Bytes)
    requires |line| < MAX_UINT32 && PlainLine(line)
    ensures Parse(ToBytes(MultiBulk(Present(line + [[]]))) + rest) ==
            Prepend([Data(MultiBulk(Present(line + [[]]))), BLANK], Parse(rest))
  {
    hide Parse, ToBytes, PlainArg;
    var args := Present(line + [[]]);
    assert forall i :: 0 <= i < |line| ==> args[i] == Some(line[i]);
    assert args[|line|] == Some([]);
    RunMultiBulk(args, rest);
    PresentBack(line + [[]]);
  }

  /** The bytes of an argument `$0`, after the others of a command: a length of 2, and then, taken
      for a length, 0. */
  lemma RunDollarZero(done: seq<Bytes>, count: nat, rest: Bytes)
    requires |done| + 1 == count
    ensures RunFrom(Reading(done, count), PrintArg(Some("$0")) + rest) ==
            Prepend([Data(MultiBulk(Present(done + [[]])))], Parse(rest))
  {
    hide RunFrom, Parse, FormatInt;
    var body: Bytes := "$0";
    assert |body| == 2;
    RunLengthLine(done, count, 2, body + (CRLF + rest));
    assert PrintArg(Some(body)) + rest == "$" + FormatInt(2) + (CRLF + (body + (CRLF + rest)))
      by { BulkBytes(body, rest); }
    DollarBody(done, count, rest);
  }

  lemma BulkBytes(body: Bytes, rest: Bytes)
    ensures PrintArg(Some(body)) + rest == "$" + FormatInt(|body|) + (CRLF + (body + (CRLF + rest)))
  {
    hide Itoa;
  }

  lemma DollarBody(done: seq<Bytes>, count: nat, rest: Bytes)
    requires |done| + 1 == count
    ensures RunFrom(Awaiting(done, count, 2), "$0" + (CRLF + rest)) ==
            Prepend([Data(MultiBulk(Present(done + [[]])))], Parse(rest))
  {
    hide Present, Prepend;
    var body: Bytes := "$0";
    ReadBulkLine(body, rest);
    var msg := body + CRLF;
    assert msg[..|msg| - 2] == body && body[1..] == "0";
    ParseIntOfFormatInt(0);
    assert FormatInt(0) == "0";
  }

  lemma {:induction false} RunDollarLast(done: seq<Bytes>, line: seq<Bytes>, count: nat, rest: Bytes)
    requires |done| + |line| + 1 == count && forall i :: 0 <= i < |line| ==> PlainArg(Some(line[i]))
    ensures RunFrom(Reading(done, count), PrintArgs(Present(line + ["$0"])) + rest) ==
            Prepend([Data(MultiBulk(Present(done + line + [[]])))], Parse(rest))
    decreases |line|
  {
    hide RunFrom, Parse, PrintArg, PlainArg, Prepend;
    var key: Bytes := "$0";
    var args := Present(line + [key]);
    if line == [] {
      assert args[1..] == [] && args[0] == Some(key) && done + [] + [[]] == done + [[]];
      assert PrintArgs(args) == PrintArg(Some(key)) + PrintArgs([]);
      RunDollarZero(done, count, rest);
      assert PrintArg(Some(key)) + [] + rest == PrintArg(Some(key)) + rest;
    } else {
      var more := line[1..];
      assert args[0] == Some(line[0]) && args[1..] == Present(more + [key]);
      Assoc(PrintArg(args[0]), PrintArgs(args[1..]), rest);
      RunArg(done, count, args[0], PrintArgs(args[1..]) + rest);
      RunDollarLast(done + [line[0]], more, count, rest);
      assert done + [line[0]] + more + [[]] == done + line + [[]];
    }
  }

  /** A last argument `$0` is taken for a length: it arrives empty. */
  lemma DollarZeroIsEmpty(line: seq<Bytes>, rest: Bytes)
    requires |line| < MAX_UINT32 && PlainLine(line)
    ensures Parse(ToBytes(MultiBulk(Present(line + ["$0"]))) + rest) ==
            Prepend([Data(MultiBulk(Present(line + [[]])))], Parse(rest))
  {
    hide RunFrom, Parse, StepHeader, PrintArgs, PlainArg, Itoa, Prepend;
    var args := Present(line + ["$0"]);
    var text: Bytes := "*" + FormatInt(|args|);
    MultiBulkHeaderLine(|args|, PrintArgs(args) + rest);
    Regroup(text, CRLF, [], PrintArgs(args), rest);
    assert text + CRLF + [] == text + CRLF && [] + (PrintArgs(args) + rest) == PrintArgs(args) + rest;
    RunOpening(text, PrintArgs(args) + rest, Reading([], |args|));
    RunDollarLast([], line, |args|, rest);
    assert [] + line + [[]] == line + [[]];
  }

  // ---- exactly which files are read to their end

  /** Arguments that are empty or plain: none starts with `$`, and each fits a slice. */
  predicate Fitted(args: seq<Option<Bytes>>) {
    forall i :: 0 <= i < |args| ==> PlainArg(args[i]) || args[i] == Some([])
  }

  /** An empty argument before the last one ends the goroutine, whatever follows. */
  lemma {:induction false} RunGap(done: seq<Bytes>, args: seq<Option<Bytes>>, count: nat, rest: Bytes)
    requires |done| + |args| == count && args != [] && Fitted(args) && !WireArgs(args)
    ensures RunFrom(Reading(done, count), PrintArgs(args) + rest).ending == Panicked
    decreases |args|
  {
    hide RunFrom, PrintArg, PlainArg, Fitted, WireArgs;
    var arg, more := args[0], args[1..];
    Assoc(PrintArg(arg), PrintArgs(more), rest);
    FirstFitted(args);
    if arg == Some([]) {
      RunEmptyInside(done, count, PrintArgs(more) + rest);
    } else {
      RunArg(done, count, arg, PrintArgs(more) + rest);
      RunGap(done + [Fill(arg)], more, count, rest);
    }
  }

  lemma FirstFitted(args: seq<Option<Bytes>>)
    requires args != [] && Fitted(args) && !WireArgs(args)
    ensures Fitted(args[1..]) && |args| > 1
    ensures args[0] != Some([]) ==> PlainArg(args[0]) && !WireArgs(args[1..])
  {
    hide PlainArg;
    var more := args[1..];
    assert forall i :: 0 <= i < |more| ==> more[i] == args[i + 1];
  }

  lemma GapPanics(args: seq<Option<Bytes>>, rest: Bytes)
    requires 0 < |args| <= MAX_UINT32 && Fitted(args) && !WireArgs(args)
    ensures Parse(ToBytes(MultiBulk(args)) + rest).ending == Panicked
  {
    hide RunFrom, Parse, StepHeader, PrintArgs, WireArgs, Fitted;
    var text: Bytes := "*" + FormatInt(|args|);
    MultiBulkHeaderLine(|args|, PrintArgs(args) + rest);
    Regroup(text, CRLF, [], PrintArgs(args), rest);
    assert text + CRLF + [] == text + CRLF && [] + (PrintArgs(args) + rest) == PrintArgs(args) + rest;
    RunOpening(text, PrintArgs(args) + rest, Reading([], |args|));
    RunGap([], args, |args|, rest);
  }

  /** A printed command whose arguments are empty or plain. */
  predicate FittedCommand(r: Reply) {
    r.MultiBulk? && 0 < |r.args| <= MAX_UINT32 && Fitted(r.args)
  }

  /** The parser reads printed commands to their end and closes its channel exactly if none of
      them has an empty argument before its last. */
  lemma {:induction false} ClosesIff(rs: seq<Reply>)
    requires forall i :: 0 <= i < |rs| ==> FittedCommand(rs[i])
    ensures Parse(PrintAll(rs)).ending == Closed <==> forall i :: 0 <= i < |rs| ==> WireSafe(rs[i])
    decreases |rs|
  {
    hide Parse, ToBytes, WireArgs, Fitted, Image;
    if rs == [] {
      NothingPrinted();
    } else {
      assert forall i :: 0 < i < |rs| ==> rs[i] == rs[1..][i - 1];
      assert forall i :: 0 <= i < |rs[1..]| ==> rs[1..][i] == rs[i + 1];
      ClosesIff(rs[1..]);
      if WireSafe(rs[0]) {
        RunPrinted(rs[0], PrintAll(rs[1..]));
      } else {
        GapPanics(rs[0].args, PrintAll(rs[1..]));
      }
    }
  }

  /** The goroutine of the parser closes its channel only after an I/O error. */
  lemma {:induction false} IoErrCloses(st: State, s: Bytes)
    requires st.Inv()
    ensures forall p <- RunFrom(st, s).payloads :: p.IoErr? ==> RunFrom(st, s).ending == Closed
    decreases |s|
  {
    hide StepHeader, StepBody, ReadLine;
    StepSendsNoError(st, s);
    match Step(st, s)
    case Stop(_, _) =>
    case Next(st', rest, out) => IoErrCloses(st', rest);
  }

  lemma StepSendsNoError(st: State, s: Bytes)
    requires st.Inv()
    ensures var r := Step(st, s);
            forall p <- r.out :: p.IoErr? ==> r.Stop? && r.ending == Closed
  {
  }

  lemma NoErrorBeforeTheEnd(file: Bytes)
    ensures forall p <- Parse(file).payloads :: p.IoErr? ==> Parse(file).ending == Closed
  {
    IoErrCloses(IDLE, file);
  }

  /** In other words: no argument but the last is empty. */
  lemma GapIff(args: seq<Option<Bytes>>)
    requires Fitted(args)
    ensures WireArgs(args) <==> forall i :: 0 <= i < |args| - 1 ==> args[i] != Some([])
  {
    hide PlainArg;
    if args != [] {
      assert PlainArg(args[|args| - 1]) || args[|args| - 1] == Some([]);
    }
    PlainIsNotEmpty();
  }

  lemma PlainIsNotEmpty()
    ensures !PlainArg(Some([]))
  {
  }
}
