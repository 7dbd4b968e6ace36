/** The parser as the source runs it: a goroutine that updates its read state in an endless
    loop. It sends exactly what the state machine of module Parser says. */
module ParserLoop {
  import opened Bytes
  import opened Reply
  import opened Parser

  /** The unread input of a bufio.Reader. */
  class Reader {
    var unread: Bytes

    constructor (input: Bytes)
      ensures unread == input
    {
      unread := input;
    }

    /** Consumes the first n bytes. */
    method Take(n: nat) returns (msg: Bytes)
      requires n <= |unread|
      modifies this
      ensures msg == old(unread)[..n] && unread == old(unread)[n..]
    {
      msg, unread := unread[..n], unread[n..];
    }
  }

  class ReadState {
    var readingMultiLine: bool
    var expectedArgsCount: nat
    var msgType: byte
    var args: seq<Bytes>
    var bulkLen: int

    function Value(): State
      reads this
    {
      State(readingMultiLine, expectedArgsCount, msgType, args, bulkLen)
    }

    constructor ()
      ensures Value() == IDLE
    {
      readingMultiLine, expectedArgsCount, msgType, args, bulkLen := false, 0, '\0', [], 0;
    }

    method Reset()
      modifies this
      ensures Value() == IDLE
    {
      readingMultiLine, expectedArgsCount, msgType, args, bulkLen := false, 0, '\0', [], 0;
    }

    method ReadLine(reader: Reader) returns (line: Line)
      requires 0 <= bulkLen
      modifies this, reader
      ensures line == Parser.ReadLine(old(bulkLen), old(reader.unread))
      ensures line.Read? ==> reader.unread == line.rest && Value() == old(Value()).(bulkLen := 0)
      ensures line.Malformed? ==> reader.unread == line.rest
    {
      var msg: Bytes;
      if bulkLen == 0 {
        var n := LineEnd(reader.unread);
        if n == |reader.unread| {
          return NoLine(true);
        }
        msg := reader.Take(n + 1);
        if |msg| == 1 {
          return LinePanic;
        }
        if msg[|msg| - 2] != CR {
          return Malformed(msg, reader.unread);
        }
      } else {
        var n := bulkLen + 2;
        if n > MAX_SLICE {
          return LinePanic;
        }
        if |reader.unread| < n {
          return NoLine(reader.unread == []);
        }
        msg := reader.Take(n);
        if msg[|msg| - 2] != CR || msg[|msg| - 1] != LF {
          return Malformed(msg, reader.unread);
        }
        bulkLen := 0;
      }
      return Read(msg, reader.unread);
    }

    method ParseMultiBulkHeader(msg: Bytes) returns (ok: bool)
      requires |msg| >= 3 && Value() == IDLE
      modifies this
      ensures ok == MultiBulkHeader(msg).Some?
      ensures ok ==> Value() == MultiBulkHeader(msg).value
    {
      var expectedLine := ParseUint(msg[1..|msg| - 2], MAX_UINT32);
      if expectedLine == None {
        return false;
      }
      if expectedLine.value == 0 {
        expectedArgsCount := 0;
      } else {
        msgType := msg[0];
        readingMultiLine := true;
        expectedArgsCount := expectedLine.value;
        args := [];
      }
      return true;
    }

    method ParseBulkHeader(msg: Bytes) returns (ok: bool)
      requires |msg| >= 3 && Value() == IDLE
      modifies this
      ensures ok == BulkHeader(msg).Some?
      ensures ok ==> Value() == BulkHeader(msg).value
    {
      var len := ParseInt(msg[1..|msg| - 2]);
      if len == None {
        return false;
      }
      bulkLen := len.value;
      if bulkLen == -1 {
        return true;
      }
      if bulkLen > 0 {
        msgType := msg[0];
        readingMultiLine := true;
        expectedArgsCount := 1;
        args := [];
        return true;
      }
      return false;
    }

    method ReadBody(msg: Bytes) returns (body: Body)
      requires |msg| >= 2
      modifies this
      ensures body == Parser.ReadBody(msg, old(Value()))
      ensures body.Accepted? ==> Value() == body.state
    {
      var line := msg[..|msg| - 2];
      if line == [] {
        return BodyPanic;
      }
      if line[0] == '$' {
        var len := ParseInt(line[1..]);
        if len == None {
          return Rejected;
        }
        bulkLen := len.value;
        if bulkLen <= 0 {
          args := args + [[]];
          bulkLen := 0;
        }
      } else {
        args := args + [line];
      }
      return Accepted(Value());
    }
  }

  /** A turn that goes on extends what has been sent. */
  lemma Advance(st: State, s: Bytes, sent: seq<Payload>)
    requires st.Inv() && Step(st, s).Next?
    ensures Prepend(sent, RunFrom(st, s)) ==
            Prepend(sent + Step(st, s).out, RunFrom(Step(st, s).state, Step(st, s).rest))
  {
    var next := Step(st, s);
    Assoc(sent, next.out, RunFrom(next.state, next.rest).payloads);
  }

  lemma Halt(st: State, s: Bytes, sent: seq<Payload>)
    requires st.Inv() && Step(st, s).Stop?
    ensures Prepend(sent, RunFrom(st, s)) == Outcome(sent + Step(st, s).out, Step(st, s).ending)
  {
  }

  /** A line that starts a message. */
  method TakeHeader(state: ReadState, msg: Bytes, ghost rest: Bytes) returns (out: seq<Payload>)
    requires |msg| >= 2 && state.Value() == IDLE
    modifies state
    ensures StepHeader(msg, rest) == Next(state.Value(), rest, out)
  {
    if msg[0] == '*' && |msg| >= 3 {
      var ok := state.ParseMultiBulkHeader(msg);
      if !ok {
        state.Reset();
        return [ProtocolErr(msg)];
      }
      if state.expectedArgsCount == 0 {
        state.Reset();
        return [Data(EmptyMultiBulk)];
      }
      return [];
    } else if msg[0] == '$' && |msg| >= 3 {
      var ok := state.ParseBulkHeader(msg);
      if !ok {
        state.Reset();
        return [ProtocolErr(msg)];
      }
      if state.bulkLen == -1 {
        state.Reset();
        return [Data(NullBulk)];
      }
      return [];
    } else {
      state.Reset();
      return [SingleLine(msg)];
    }
  }

  /** A line inside a multi-line message; None is a panic. */
  method TakeBody(state: ReadState, msg: Bytes, ghost rest: Bytes) returns (out: Option<seq<Payload>>)
    requires |msg| >= 2 && state.bulkLen == 0
    requires state.msgType == '*' || state.expectedArgsCount == 1
    modifies state
    ensures StepBody(old(state.Value()), msg, rest) ==
            match out
            case None => Stop([], Panicked)
            case Some(sent) => Next(state.Value(), rest, sent)
  {
    var body := state.ReadBody(msg);
    match body {
      case BodyPanic => return None;
      case Rejected =>
        state.Reset();
        return Some([ProtocolErr(msg)]);
      case Accepted(_) =>
        if state.Value().Finished() {
          var result := if state.msgType == '*' then MultiBulk(Present(state.args)) else Bulk(state.args[0]);
          state.Reset();
          return Some([Data(result)]);
        }
        return Some([]);
    }
  }

  /** parse0: sends on ch until an I/O error closes it or a panic ends the goroutine. */
  method Parse0(input: Bytes) returns (ch: seq<Payload>, ending: Ending)
    ensures Outcome(ch, ending) == Parse(input)
  {
    hide RunFrom, StepHeader, StepBody;
    var reader := new Reader(input);
    var state := new ReadState();
    ch := [];
    while true
      invariant fresh(reader) && fresh(state)
      invariant state.Value().Inv()
      invariant Parse(input) == Prepend(ch, RunFrom(state.Value(), reader.unread))
      decreases |reader.unread|
    {
      ghost var st, s := state.Value(), reader.unread;
      if Step(st, s).Next? {
        Advance(st, s, ch);
      } else {
        Halt(st, s, ch);
      }
      var line := state.ReadLine(reader);
      match line {
        case NoLine(eof) => return ch + [IoErr(eof)], Closed;
        case LinePanic => return ch + [], Panicked;
        case Malformed(msg, _) =>
          ch := ch + [ProtocolErr(msg)];
          state.Reset();
        case Read(msg, _) =>
          if !state.readingMultiLine {
            var out := TakeHeader(state, msg, reader.unread);
            ch := ch + out;
          } else {
            var out := TakeBody(state, msg, reader.unread);
            if out == None {
              return ch + [], Panicked;
            }
            ch := ch + out.value;
          }
      }
    }
  }
}
