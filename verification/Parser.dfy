/** The streaming RESP parser (resp/parser/parser.go) as a state machine over the bytes
    that are still unread. */
module Parser {
  import opened Bytes
  import opened Reply

  /** What the goroutine sends on its channel. An I/O error is io.EOF or io.ErrUnexpectedEOF. */
  datatype Payload =
    | Data(reply: Reply)
    | ProtocolErr(msg: Bytes)
    | IoErr(eof: bool)

  /** The channel is closed after an I/O error; a run-time panic ends the goroutine and
      leaves the channel open. */
  datatype Ending = Closed | Panicked

  datatype Outcome = Outcome(payloads: seq<Payload>, ending: Ending)

  datatype State = State(
    readingMultiLine: bool,
    expectedArgsCount: nat,
    msgType: byte,
    args: seq<Bytes>,
    bulkLen: int)
  {
    predicate Finished() {
      expectedArgsCount > 0 && |args| == expectedArgsCount
    }

    /** What holds whenever parse0 is about to read. */
    predicate Inv() {
      && 0 <= bulkLen <= MAX_INT64
      && (!readingMultiLine ==> this == IDLE)
      && (readingMultiLine ==>
            && |args| < expectedArgsCount
            && (msgType == '*' || (msgType == '$' && expectedArgsCount == 1)))
    }
  }

  const IDLE := State(false, 0, '\0', [], 0)

  /** The index of the first line feed, or the length if there is none. */
  function LineEnd(s: Bytes): (n: nat)
    ensures n <= |s|
    ensures LF !in s[..n]
    ensures n < |s| ==> s[n] == LF
  {
    if s == [] || s[0] == LF then 0
    else
      var n := 1 + LineEnd(s[1..]);
      assert s[..n] == [s[0]] + s[1..][..n - 1];
      n
  }

  datatype Line =
    | Read(msg: Bytes, rest: Bytes)
    | Malformed(msg: Bytes, rest: Bytes)
    | NoLine(eof: bool)
    | LinePanic

  /** readLine: a text line, or bulkLen bytes and a line break when a bulk is pending.
      Indexing before a bare line feed panics, and so does making a slice that is too large. */
  function ReadLine(bulkLen: int, s: Bytes): (r: Line)
    requires 0 <= bulkLen
    ensures r.Read? ==> |r.msg| >= 2 && |r.msg| + |r.rest| == |s|
    ensures r.Read? && bulkLen > 0 ==> |r.msg| == bulkLen + 2
    ensures r.Malformed? ==> |r.rest| < |s|
  {
    if bulkLen == 0 then
      var n := LineEnd(s);
      if n == |s| then NoLine(true)
      else if n == 0 then LinePanic
      else if s[n - 1] != CR then Malformed(s[..n + 1], s[n + 1..])
      else Read(s[..n + 1], s[n + 1..])
    else
      var n := bulkLen + 2;
      if n > MAX_SLICE then LinePanic
      else if |s| < n then NoLine(s == [])
      else if s[n - 2] != CR || s[n - 1] != LF then Malformed(s[..n], s[n..])
      else Read(s[..n], s[n..])
  }

  /** parseMultiBulkHeader on `*<count>CRLF`. */
  function MultiBulkHeader(msg: Bytes): Option<State>
    requires |msg| >= 3
  {
    var count := ParseUint(msg[1..|msg| - 2], MAX_UINT32);
    if count == None then None
    else if count.value == 0 then Some(IDLE)
    else Some(State(true, count.value, msg[0], [], 0))
  }

  /** parseBulkHeader on `$<length>CRLF`: -1 is the null bulk, and 0 is refused. */
  function BulkHeader(msg: Bytes): Option<State>
    requires |msg| >= 3
  {
    var len := ParseInt(msg[1..|msg| - 2]);
    if len == None then None
    else if len.value == -1 then Some(IDLE.(bulkLen := -1))
    else if len.value > 0 then Some(State(true, 1, msg[0], [], len.value))
    else None
  }

  function Split(s: Bytes, separator: byte): (r: seq<Bytes>)
    ensures r != []
  {
    if s == [] then [[]]
    else
      var rest := Split(s[1..], separator);
      if s[0] == separator then [[]] + rest
      else [[s[0]] + rest[0]] + rest[1..]
  }

  /** parseSingleLineReply, on a line that ends in CRLF. */
  function SingleLine(msg: Bytes): Payload
    requires |msg| >= 2
  {
    var str := msg[..|msg| - 2];
    if msg[0] == '+' && str != [] then Data(Status(str[1..]))
    else if msg[0] == '-' && str != [] then Data(Err(str[1..]))
    else if msg[0] == ':' && str != [] then
      var val := ParseInt(str[1..]);
      if val == None then ProtocolErr(msg) else Data(Int(val.value))
    else Data(MultiBulk(Present(Split(str, ' '))))
  }

  datatype Body = Accepted(state: State) | Rejected | BodyPanic

  /** readBody: a line that starts with `$` is a length, any other line is an argument. */
  function ReadBody(msg: Bytes, st: State): Body
    requires |msg| >= 2
  {
    var line := msg[..|msg| - 2];
    if line == [] then BodyPanic
    else if line[0] == '$' then
      var len := ParseInt(line[1..]);
      if len == None then Rejected
      else if len.value <= 0 then Accepted(st.(args := st.args + [[]], bulkLen := 0))
      else Accepted(st.(bulkLen := len.value))
    else Accepted(st.(args := st.args + [line]))
  }

  datatype Progress =
    | Next(state: State, rest: Bytes, out: seq<Payload>)
    | Stop(out: seq<Payload>, ending: Ending)

  /** The reply of a finished multi-line message. */
  function Assemble(st: State): Reply
    requires st.Finished()
  {
    if st.msgType == '*' then MultiBulk(Present(st.args)) else Bulk(st.args[0])
  }

  /** A line of a new message. */
  function StepHeader(msg: Bytes, rest: Bytes): Progress
    requires |msg| >= 2
  {
    if msg[0] == '*' && |msg| >= 3 then
      match MultiBulkHeader(msg)
      case None => Next(IDLE, rest, [ProtocolErr(msg)])
      case Some(st) => if st == IDLE then Next(IDLE, rest, [Data(EmptyMultiBulk)]) else Next(st, rest, [])
    else if msg[0] == '$' && |msg| >= 3 then
      match BulkHeader(msg)
      case None => Next(IDLE, rest, [ProtocolErr(msg)])
      case Some(st) => if st.bulkLen == -1 then Next(IDLE, rest, [Data(NullBulk)]) else Next(st, rest, [])
    else Next(IDLE, rest, [SingleLine(msg)])
  }

  /** A line inside a multi-line message. */
  function StepBody(st: State, msg: Bytes, rest: Bytes): Progress
    requires |msg| >= 2
  {
    match ReadBody(msg, st)
    case BodyPanic => Stop([], Panicked)
    case Rejected => Next(IDLE, rest, [ProtocolErr(msg)])
    case Accepted(st') =>
      if st'.Finished() then Next(IDLE, rest, [Data(Assemble(st'))]) else Next(st', rest, [])
  }

  /** One turn of the parse0 loop. */
  function Step(st: State, s: Bytes): (r: Progress)
    requires st.Inv()
    ensures r.Next? ==> |r.rest| < |s| && r.state.Inv()
  {
    match ReadLine(st.bulkLen, s)
    case NoLine(eof) => Stop([IoErr(eof)], Closed)
    case LinePanic => Stop([], Panicked)
    case Malformed(msg, rest) => Next(IDLE, rest, [ProtocolErr(msg)])
    case Read(msg, rest) =>
      if st.readingMultiLine then StepBody(st.(bulkLen := 0), msg, rest) else StepHeader(msg, rest)
  }

  function Prepend(out: seq<Payload>, o: Outcome): Outcome {
    Outcome(out + o.payloads, o.ending)
  }

  /** Everything parse0 sends from a state and an unread input. */
  function RunFrom(st: State, s: Bytes): Outcome
    requires st.Inv()
    decreases |s|
  {
    match Step(st, s)
    case Stop(out, ending) => Outcome(out, ending)
    case Next(st', rest, out) => Prepend(out, RunFrom(st', rest))
  }

  function Parse(s: Bytes): Outcome {
    RunFrom(IDLE, s)
  }
}
