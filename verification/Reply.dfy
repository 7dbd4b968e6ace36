/** RESP replies and their printed form (resp/reply). */
module Reply {
  import opened Bytes

  /** A reply, up to the bytes it prints: OkReply is Status("OK"), PongReply is
      Status("PONG"), and every error reply is Err with its text. A multi-bulk argument
      is None when the Go slice is nil. */
  datatype Reply =
    | Status(text: Bytes)
    | Err(text: Bytes)
    | Int(code: int)
    | Bulk(arg: Bytes)
    | NullBulk
    | EmptyMultiBulk
    | MultiBulk(args: seq<Option<Bytes>>)

  function OkReply(): Reply { Status("OK") }

  function PrintArg(arg: Option<Bytes>): Bytes {
    match arg
    case None => "$-1" + CRLF
    case Some(b) => "$" + Itoa(|b|) + CRLF + b + CRLF
  }

  function PrintArgs(args: seq<Option<Bytes>>): Bytes {
    if args == [] then [] else PrintArg(args[0]) + PrintArgs(args[1..])
  }

  /** The ToBytes methods. A bulk reply with an empty argument prints no line break. */
  function ToBytes(r: Reply): Bytes {
    match r
    case Status(text) => "+" + text + CRLF
    case Err(text) => "-" + text + CRLF
    case Int(code) => ":" + FormatInt(code) + CRLF
    case Bulk(arg) => if arg == [] then "$-1" else "$" + Itoa(|arg|) + CRLF + arg + CRLF
    case NullBulk => "$-1" + CRLF
    case EmptyMultiBulk => "*0" + CRLF
    case MultiBulk(args) => "*" + Itoa(|args|) + CRLF + PrintArgs(args)
  }

  function PrintAll(rs: seq<Reply>): Bytes {
    if rs == [] then [] else ToBytes(rs[0]) + PrintAll(rs[1..])
  }

  lemma {:induction false} PrintArgsAppend(args: seq<Option<Bytes>>, arg: Option<Bytes>)
    ensures PrintArgs(args + [arg]) == PrintArgs(args) + PrintArg(arg)
  {
    hide PrintArg;
    if args == [] {
      assert [] + [arg] == [arg] && [arg][1..] == [];
      assert PrintArg(arg) + [] == PrintArg(arg) && [] + PrintArg(arg) == PrintArg(arg);
    } else {
      PrintArgsAppend(args[1..], arg);
      assert (args + [arg])[1..] == args[1..] + [arg];
      Assoc(PrintArg(args[0]), PrintArgs(args[1..]), PrintArg(arg));
    }
  }

  /** MultiBulkReply.ToBytes writes its buffer argument by argument. */
  method MultiBulkToBytes(args: seq<Option<Bytes>>) returns (buf: Bytes)
    ensures buf == ToBytes(MultiBulk(args))
  {
    var header := "*" + Itoa(|args|) + CRLF;
    buf := header;
    for i := 0 to |args|
      invariant buf == header + PrintArgs(args[..i])
    {
      PrintArgsAppend(args[..i], args[i]);
      assert args[..i + 1] == args[..i] + [args[i]];
      Assoc(header, PrintArgs(args[..i]), PrintArg(args[i]));
      buf := buf + PrintArg(args[i]);
    }
    assert args[..|args|] == args;
  }

  /** Non-nil slices as arguments. */
  function Present(args: seq<Bytes>): (r: seq<Option<Bytes>>)
    ensures |r| == |args| && forall i :: 0 <= i < |args| ==> r[i] == Some(args[i])
  {
    seq(|args|, i requires 0 <= i < |args| => Some(args[i]))
  }

  /** A nil slice read as the empty string. */
  function Fill(arg: Option<Bytes>): Bytes {
    if arg.Some? then arg.value else []
  }

  function Filled(args: seq<Option<Bytes>>): (r: seq<Bytes>)
    ensures |r| == |args| && forall i :: 0 <= i < |args| ==> r[i] == Fill(args[i])
  {
    seq(|args|, i requires 0 <= i < |args| => Fill(args[i]))
  }
}
