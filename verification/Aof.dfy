/** The append-only file (aof/aof.go): framing, writing and replaying the log. */
module Aof {
  import opened Bytes
  import opened Reply
  import opened Commands
  import opened Standalone
  import opened LogCompleteness
  import opened Parser
  import opened RoundTrip

  // ---- writing

  function SelectLine(dbIndex: int): CmdLine {
    ["SELECT", FormatInt(dbIndex)]
  }

  /** The command lines written for records: a SELECT wherever the database changes. */
  function Frame(current: int, records: seq<Record>): seq<CmdLine>
    decreases |records|
  {
    if records == [] then []
    else
      var r := records[0];
      (if r.dbIndex != current then [SelectLine(r.dbIndex)] else []) + [r.line] + Frame(r.dbIndex, records[1..])
  }

  function AsReply(line: CmdLine): Reply {
    MultiBulk(Present(line))
  }

  function AsReplies(lines: seq<CmdLine>): (r: seq<Reply>)
    ensures |r| == |lines| && forall i :: 0 <= i < |r| ==> r[i] == AsReply(lines[i])
  {
    seq(|lines|, i requires 0 <= i < |lines| => AsReply(lines[i]))
  }

  function FileOf(lines: seq<CmdLine>): Bytes {
    PrintAll(AsReplies(lines))
  }

  /** The bytes that handleAof writes for a channel full of records. */
  function Written(current: int, records: seq<Record>): Bytes {
    FileOf(Frame(current, records))
  }

  // ---- replaying

  /** LoadAof on what the parser sends can end with these databases: every multi-bulk reply is
      executed, drawing whatever it draws, and everything else is skipped. */
  ghost predicate Loads(dbs: seq<Keyspace>, selected: int, payloads: seq<Payload>, result: seq<Keyspace>)
    decreases |payloads|
  {
    if payloads == [] || payloads[0] == IoErr(true) then result == dbs
    else if payloads[0].Data? && payloads[0].reply.MultiBulk? && payloads[0].reply.args != [] then
      exists draw ::
        && PossibleOn(dbs, selected, Filled(payloads[0].reply.args), draw)
        && var e := ExecOn(dbs, selected, Filled(payloads[0].reply.args), draw);
           Loads(e.dbs, e.selected, payloads[1..], result)
    else Loads(dbs, selected, payloads[1..], result)
  }

  /** Executing command lines one after the other can end with these databases. */
  ghost predicate Replays(dbs: seq<Keyspace>, selected: int, lines: seq<CmdLine>, result: seq<Keyspace>)
    decreases |lines|
  {
    if lines == [] then result == dbs
    else
      exists draw ::
        && PossibleOn(dbs, selected, lines[0], draw)
        && var e := ExecOn(dbs, selected, lines[0], draw);
           Replays(e.dbs, e.selected, lines[1..], result)
  }

  /** Where a line leaves the selected database. */
  function Moved(databases: nat, selected: int, line: CmdLine): int {
    if IsSelect(line) && |line| == 2 && ParseInt(line[1]).Some? && ParseInt(line[1]).value < databases
    then ParseInt(line[1]).value
    else selected
  }

  /** The records that a replayer with this many databases takes command lines for. */
  function Decode(databases: nat, selected: int, lines: seq<CmdLine>): seq<Record>
    decreases |lines|
  {
    if lines == [] then []
    else
      (if IsSelect(lines[0]) then [] else [Record(selected, lines[0])])
      + Decode(databases, Moved(databases, selected, lines[0]), lines[1..])
  }

  /** Executing the records, each on its own database, can end with these databases. */
  ghost predicate Applies(dbs: seq<Keyspace>, records: seq<Record>, result: seq<Keyspace>)
    decreases |records|
  {
    if records == [] then result == dbs
    else
      var i, line := records[0].dbIndex, records[0].line;
      if 0 <= i < |dbs| then
        exists draw ::
          && Possible(dbs[i], line, draw)
          && Applies(dbs[i := ExecBy(dbs[i], line, draw).0.ks], records[1..], result)
      else Applies(dbs, records[1..], result)
  }

  /** Replaying any lines is applying the records they decode to. */
  lemma {:induction false} ReplaysIsApplies(dbs: seq<Keyspace>, selected: int, lines: seq<CmdLine>,
                                            result: seq<Keyspace>)
    ensures Replays(dbs, selected, lines, result) <==> Applies(dbs, Decode(|dbs|, selected, lines), result)
    decreases |lines|
  {
    hide ExecBy, Possible, Moved, ExecOn, PossibleOn;
    if lines != [] {
      var line := lines[0];
      var at := Moved(|dbs|, selected, line);
      var rest := Decode(|dbs|, at, lines[1..]);
      var now := [Record(selected, line)] + rest;
      assert now[1..] == rest && [] + rest == rest;
      if !IsSelect(line) && 0 <= selected < |dbs| {
        forall draw: seq<Bytes>
          ensures PossibleOn(dbs, selected, line, draw) <==> Possible(dbs[selected], line, draw)
          ensures var e := ExecOn(dbs, selected, line, draw);
                  Replays(e.dbs, e.selected, lines[1..], result) <==>
                  Applies(dbs[selected := ExecBy(dbs[selected], line, draw).0.ks], rest, result)
        {
          MovesTo(dbs, selected, line, draw);
          var e := ExecOn(dbs, selected, line, draw);
          ReplaysIsApplies(e.dbs, e.selected, lines[1..], result);
        }
        assert Applies(dbs, now, result) <==>
          exists draw ::
            Possible(dbs[selected], line, draw)
            && Applies(dbs[selected := ExecBy(dbs[selected], line, draw).0.ks], rest, result);
      } else {
        forall draw: seq<Bytes>
          ensures PossibleOn(dbs, selected, line, draw) <==> draw == []
          ensures var e := ExecOn(dbs, selected, line, draw); e.dbs == dbs && e.selected == at
        {
          MovesTo(dbs, selected, line, draw);
        }
        ReplaysIsApplies(dbs, at, lines[1..], result);
        assert PossibleOn(dbs, selected, line, []);
      }
    }
  }

  /** Only a command on a database that exists executes anything. */
  lemma MovesTo(dbs: seq<Keyspace>, selected: int, line: CmdLine, draw: seq<Bytes>)
    ensures var e := ExecOn(dbs, selected, line, draw);
      && e.selected == Moved(|dbs|, selected, line)
      && if !IsSelect(line) && 0 <= selected < |dbs|
         then (PossibleOn(dbs, selected, line, draw) <==> Possible(dbs[selected], line, draw))
              && e.dbs == dbs[selected := ExecBy(dbs[selected], line, draw).0.ks]
         else (PossibleOn(dbs, selected, line, draw) <==> draw == []) && e.dbs == dbs
  {
    hide ExecBy, Possible;
  }

  predicate GoodRecord(databases: nat, r: Record) {
    0 <= r.dbIndex < databases <= MAX_INT64 && !IsSelect(r.line)
  }

  lemma SelectMoves(databases: nat, selected: int, dbIndex: int)
    requires 0 <= dbIndex < databases <= MAX_INT64
    ensures IsSelect(SelectLine(dbIndex)) && Moved(databases, selected, SelectLine(dbIndex)) == dbIndex
  {
    ParseIntOfFormatInt(dbIndex);
    assert "SELECT"[3..] == "ECT";
  }

  /** A framed stream decodes to exactly the records it was made from, if the replayer starts
      where the writer started. */
  lemma {:induction false} DecodeFrame(databases: nat, current: int, records: seq<Record>)
    requires forall i :: 0 <= i < |records| ==> GoodRecord(databases, records[i])
    ensures Decode(databases, current, Frame(current, records)) == records
    decreases |records|
  {
    hide IsSelect, Moved, SelectLine;
    if records != [] {
      var r := records[0];
      var rest := Frame(r.dbIndex, records[1..]);
      DecodeFrame(databases, r.dbIndex, records[1..]);
      DecodeFirst(databases, current, r, rest);
      assert records == [r] + records[1..];
    }
  }

  lemma NotSelectStays(databases: nat, selected: int, line: CmdLine)
    requires !IsSelect(line)
    ensures Moved(databases, selected, line) == selected
  {
  }

  lemma DecodeFirst(databases: nat, current: int, r: Record, rest: seq<CmdLine>)
    requires GoodRecord(databases, r)
    ensures var head := (if r.dbIndex != current then [SelectLine(r.dbIndex)] else []) + [r.line];
            Decode(databases, current, head + rest) == [r] + Decode(databases, r.dbIndex, rest)
  {
    hide IsSelect, Moved, SelectLine;
    SelectMoves(databases, current, r.dbIndex);
    NotSelectStays(databases, r.dbIndex, r.line);
    var lines := [r.line] + rest;
    assert lines[1..] == rest;
    if r.dbIndex != current {
      var all := [SelectLine(r.dbIndex), r.line] + rest;
      assert [SelectLine(r.dbIndex)] + [r.line] + rest == all && all[1..] == lines;
      assert [] + Decode(databases, r.dbIndex, lines) == Decode(databases, r.dbIndex, lines);
    } else {
      assert [] + [r.line] + rest == lines;
    }
  }

  // ---- bytes

  /** A command line the file can carry: fewer than 2^32 arguments, none starting with `$`
      and none but the last empty. */
  predicate SafeLine(line: CmdLine) {
    |line| <= MAX_UINT32 && WireArgs(Present(line))
  }

  /** A command line whose arguments are empty or fit the file: none starts with `$`. */
  predicate FittedLine(line: CmdLine) {
    |line| <= MAX_UINT32 && Fitted(Present(line))
  }

  /** The file can carry such a line exactly if none of its arguments but the last is empty. */
  lemma SafeLineIff(line: CmdLine)
    requires FittedLine(line)
    ensures SafeLine(line) <==> forall i :: 0 <= i < |line| - 1 ==> line[i] != []
  {
    hide Fitted, WireArgs;
    GapIff(Present(line));
    assert forall i :: 0 <= i < |line| ==> (Present(line)[i] == Some([]) <==> line[i] == []);
  }

  lemma FilledPresent(args: seq<Bytes>)
    ensures Filled(Present(args)) == args
  {
  }

  /** The blank command that follows an empty last argument does nothing. */
  lemma BlankDoesNothing(dbs: seq<Keyspace>, selected: int)
    ensures forall draw :: PossibleOn(dbs, selected, [[]], draw) <==> draw == []
    ensures var e := ExecOn(dbs, selected, [[]], []); e.dbs == dbs && e.selected == selected
  {
    assert ToLower([]) == [] && Lookup([]) == None;
    if 0 <= selected < |dbs| {
      assert LineDraws(dbs[selected], [[]]) == NoDraw;
      assert ExecBy(dbs[selected], [[]], []).0.ks == dbs[selected];
    }
  }

  lemma LoadsBlank(dbs: seq<Keyspace>, selected: int, rest: seq<Payload>, result: seq<Keyspace>)
    ensures Loads(dbs, selected, [BLANK] + rest, result) <==> Loads(dbs, selected, rest, result)
  {
    hide ExecOn, PossibleOn, Filled;
    assert ([BLANK] + rest)[1..] == rest;
    assert Filled([Some([])]) == [[]] by { FilledBlank(); }
    BlankDoesNothing(dbs, selected);
  }

  lemma FilledBlank()
    ensures Filled([Some([])]) == [[]]
  {
  }

  lemma {:induction false} LoadsImages(dbs: seq<Keyspace>, selected: int, lines: seq<CmdLine>, result: seq<Keyspace>)
    ensures Loads(dbs, selected, Images(AsReplies(lines)) + [IoErr(true)], result) <==>
            Replays(dbs, selected, lines, result)
    decreases |lines|
  {
    hide AsReply, ExecOn, PossibleOn, Stray, Present, Filled;
    if lines == [] {
      assert [] + [IoErr(true)] == [IoErr(true)];
    } else {
      var line := lines[0];
      var rest := Images(AsReplies(lines[1..])) + [IoErr(true)];
      ImagesFirst(lines);
      var first := Data(MultiBulk(Present(line)));
      var more := Stray(Present(line)) + rest;
      assert ([first] + more)[1..] == more;
      FilledPresent(line);
      forall e: Executed
        ensures Loads(e.dbs, e.selected, more, result) <==> Replays(e.dbs, e.selected, lines[1..], result)
      {
        LoadsImages(e.dbs, e.selected, lines[1..], result);
        LoadsBlank(e.dbs, e.selected, rest, result);
        StrayIsBlank(Present(line));
        assert [] + rest == rest;
      }
    }
  }

  lemma StrayIsBlank(args: seq<Option<Bytes>>)
    ensures Stray(args) == [] || Stray(args) == [BLANK]
  {
  }

  lemma ImagesFirst(lines: seq<CmdLine>)
    requires lines != []
    ensures Images(AsReplies(lines)) + [IoErr(true)] ==
            [Data(MultiBulk(Present(lines[0])))]
            + (Stray(Present(lines[0])) + (Images(AsReplies(lines[1..])) + [IoErr(true)]))
  {
    hide Stray;
    var args := Present(lines[0]);
    var first, stray, rest := [Data(MultiBulk(args))], Stray(args), Images(AsReplies(lines[1..]));
    assert AsReplies(lines)[1..] == AsReplies(lines[1..]);
    FilledPresent(lines[0]);
    assert Images(AsReplies(lines)) == first + stray + rest;
    Assoc(first + stray, rest, [IoErr(true)]);
    Assoc(first, stray, rest + [IoErr(true)]);
  }

  /** Loading a file of wire-safe command lines executes exactly those lines. */
  lemma LoadFile(dbs: seq<Keyspace>, lines: seq<CmdLine>, result: seq<Keyspace>)
    requires forall i :: 0 <= i < |lines| ==> SafeLine(lines[i])
    ensures Loads(dbs, 0, Parse(FileOf(lines)).payloads, result) <==> Replays(dbs, 0, lines, result)
  {
    hide Parse, PrintAll, Images, Loads, Replays, WireArgs, Present;
    ParsePrintAll(AsReplies(lines));
    LoadsImages(dbs, 0, lines, result);
  }

  // ---- what is logged can be carried

  /** A line is logged under the name of its command, with the arguments it came with. */
  lemma LoggedIsCommand(ks: Keyspace, line: CmdLine, draw: seq<Bytes>)
    ensures forall l <- ExecBy(ks, line, draw).1 :: !IsSelect(l) && l[1..] == line[1..]
  {
    hide Commands.Run, LogName, ToLower, Lookup, Arity;
    var name := ToLower(line[0]);
    if ExecBy(ks, line, draw).1 != [] {
      var c := Lookup(name).value;
      LogNameFinds(c);
      SelectIsNotACommand();
    }
  }

  lemma SelectIsNotACommand()
    ensures Lookup("select") == None
  {
    assert "select"[2..] == "lect";
  }

  lemma SelectLineIsSafe(dbIndex: int)
    requires 0 <= dbIndex <= MAX_INT64
    ensures SafeLine(SelectLine(dbIndex)) && FittedLine(SelectLine(dbIndex))
  {
    hide FormatInt;
    FormatIntPlain(dbIndex);
    assert Present(SelectLine(dbIndex)) == [Some("SELECT"), Some(FormatInt(dbIndex))];
  }

  function Ten(k: nat): nat {
    if k == 0 then 1 else 10 * Ten(k - 1)
  }

  lemma {:induction false} ItoaShort(n: nat, k: nat)
    requires n < Ten(k) && k > 0
    ensures |Itoa(n)| <= k
  {
    if n >= 10 {
      ItoaShort(n / 10, k - 1);
    }
  }

  lemma TenTo19()
    ensures MAX_INT64 < Ten(19)
  {
    assert Ten(1) == 10 && Ten(2) == 100 && Ten(3) == 1000 && Ten(4) == 1_0000;
    assert Ten(5) == 10_0000 && Ten(6) == 100_0000 && Ten(7) == 1000_0000 && Ten(8) == 1_0000_0000;
    assert Ten(9) == 10_0000_0000 && Ten(10) == 100_0000_0000 && Ten(11) == 1000_0000_0000;
    assert Ten(12) == 1_0000_0000_0000 && Ten(13) == 10_0000_0000_0000 && Ten(14) == 100_0000_0000_0000;
    assert Ten(15) == 1000_0000_0000_0000 && Ten(16) == 1_0000_0000_0000_0000;
    assert Ten(17) == 10_0000_0000_0000_0000 && Ten(18) == 100_0000_0000_0000_0000;
  }

  /** The decimal text of a database index is short and made of digits. */
  lemma FormatIntPlain(n: int)
    requires 0 <= n <= MAX_INT64
    ensures PlainArg(Some(FormatInt(n)))
  {
    TenTo19();
    ItoaShort(n, 19);
    assert IsDigit(Itoa(n)[0]);
  }

  lemma {:induction false} FrameIsSafe(databases: nat, current: int, records: seq<Record>)
    requires forall r <- records :: GoodRecord(databases, r)
    ensures (forall l <- Frame(current, records) :: SafeLine(l)) <==> forall r <- records :: SafeLine(r.line)
    ensures (forall r <- records :: FittedLine(r.line)) ==> forall l <- Frame(current, records) :: FittedLine(l)
    decreases |records|
  {
    hide SafeLine, FittedLine, SelectLine;
    if records != [] {
      var r, rest := records[0], records[1..];
      assert records == [r] + rest && r in records;
      FrameIsSafe(databases, r.dbIndex, rest);
      SelectLineIsSafe(r.dbIndex);
    }
  }

  /** The file of these records is read to its end, and loading comes back, exactly if none of them
      has an empty argument before its last. */
  lemma FileClosesIff(databases: nat, records: seq<Record>)
    requires forall r <- records :: GoodRecord(databases, r) && FittedLine(r.line)
    ensures Parse(Written(0, records)).ending == Closed <==> forall r <- records :: SafeLine(r.line)
  {
    hide GoodRecord, FittedLine, SafeLine, Frame, Parse, PrintAll, WireSafe, FittedCommand, AsReply;
    FrameIsSafe(databases, 0, records);
    var lines := Frame(0, records);
    forall i | 0 <= i < |lines| ensures FittedCommand(AsReply(lines[i])) {
      assert lines[i] in lines;
      LineAsReply(lines[i]);
    }
    forall i | 0 <= i < |lines| ensures WireSafe(AsReply(lines[i])) <==> SafeLine(lines[i]) {
      LineAsReply(lines[i]);
    }
    ClosesIff(AsReplies(lines));
    assert (forall l <- lines :: SafeLine(l)) <==> forall i :: 0 <= i < |lines| ==> SafeLine(lines[i]);
  }

  lemma LineAsReply(line: CmdLine)
    ensures WireSafe(AsReply(line)) <==> SafeLine(line)
    ensures FittedLine(line) ==> FittedCommand(AsReply(line))
  {
    hide Fitted, WireArgs;
  }

  // ---- a second session on the same file

  function LastDb(current: int, records: seq<Record>): int {
    if records == [] then current else records[|records| - 1].dbIndex
  }

  lemma {:induction false} DecodeTwo(databases: nat, current: int, first: seq<Record>, lines: seq<CmdLine>)
    requires forall i :: 0 <= i < |first| ==> GoodRecord(databases, first[i])
    ensures Decode(databases, current, Frame(current, first) + lines) ==
            first + Decode(databases, LastDb(current, first), lines)
    decreases |first|
  {
    hide IsSelect, Moved, SelectLine, GoodRecord;
    if first == [] {
      assert [] + lines == lines && [] + Decode(databases, current, lines) == Decode(databases, current, lines);
    } else {
      var r := first[0];
      var rest := Frame(r.dbIndex, first[1..]);
      DecodeTwo(databases, r.dbIndex, first[1..], lines);
      DecodeFirst(databases, current, r, rest + lines);
      var head := (if r.dbIndex != current then [SelectLine(r.dbIndex)] else []) + [r.line];
      Assoc(head, rest, lines);
      Assoc([r], first[1..], Decode(databases, LastDb(current, first), lines));
      assert [r] + first[1..] == first;
    }
  }

  /** A restarted writer assumes database 0 although the file may have left the replayer
      elsewhere: the two sessions decode correctly exactly when the first one ended in
      database 0 or the second one starts with a SELECT of its own (or is empty). */
  lemma RestartIff(databases: nat, first: seq<Record>, second: seq<Record>)
    requires forall i :: 0 <= i < |first| ==> GoodRecord(databases, first[i])
    requires forall i :: 0 <= i < |second| ==> GoodRecord(databases, second[i])
    ensures Decode(databases, 0, Frame(0, first) + Frame(0, second)) == first + second <==>
            LastDb(0, first) == 0 || second == [] || second[0].dbIndex != 0
  {
    hide Decode, GoodRecord;
    var e := LastDb(0, first);
    DecodeTwo(databases, 0, first, Frame(0, second));
    if second != [] && second[0].dbIndex == 0 && e != 0 {
      WrongDb(databases, e, second);
      var d := Decode(databases, e, Frame(0, second));
      assert (first + d)[|first|..] == d && (first + second)[|first|..] == second;
    } else {
      if second != [] && second[0].dbIndex != 0 {
        OwnSelect(databases, e, second);
      }
      DecodeFrame(databases, if second == [] then e else 0, second);
    }
  }

  lemma WrongDb(databases: nat, e: int, second: seq<Record>)
    requires second != [] && second[0].dbIndex == 0 && e != 0 && GoodRecord(databases, second[0])
    ensures Decode(databases, e, Frame(0, second)) != second
  {
    hide IsSelect, Moved;
    var rest := Frame(0, second[1..]);
    assert Frame(0, second)[0] == second[0].line;
    assert Decode(databases, e, Frame(0, second))[0] == Record(e, second[0].line);
  }

  lemma OwnSelect(databases: nat, e: int, second: seq<Record>)
    requires second != [] && second[0].dbIndex != 0 && GoodRecord(databases, second[0])
    ensures Decode(databases, e, Frame(0, second)) == Decode(databases, 0, Frame(0, second))
  {
    hide IsSelect, Moved, SelectLine;
    var i := second[0].dbIndex;
    SelectMoves(databases, e, i);
    SelectMoves(databases, 0, i);
    var f := Frame(0, second);
    assert f[0] == SelectLine(i);
    assert Decode(databases, e, f) == [] + Decode(databases, i, f[1..]) == Decode(databases, 0, f);
  }

  // ---- the handler

  class AofHandler {
    var aofChan: seq<Record>
    var aofFile: Bytes
    var currentDB: int
    ghost const existing: Bytes
    /** Every record handed to AddAof, and the ones that handleAof has taken from the channel. */
    ghost var handed: seq<Record>
    ghost var taken: seq<Record>

    /** The channel holds the records not taken yet, and the file holds, after what was there before,
        the frame of those taken. */
    ghost predicate Valid()
      reads this
    {
      && handed == taken + aofChan
      && currentDB == LastDb(0, taken)
      && aofFile == existing + FileOf(Frame(0, taken))
    }

    constructor (file: Bytes)
      ensures Valid() && existing == file && handed == []
    {
      aofChan, aofFile, currentDB := [], file, 0;
      existing, handed, taken := file, [], [];
      NothingWritten(file);
    }

    /** Nothing handed over is lost or overtaken, however writing is interleaved. */
    method AddAof(record: Record)
      requires Valid()
      modifies this`aofChan, this`handed
      ensures Valid() && handed == old(handed) + [record]
    {
      Assoc(taken, aofChan, [record]);
      aofChan := aofChan + [record];
      handed := handed + [record];
    }

    method Write(line: CmdLine)
      modifies this`aofFile
      ensures aofFile == old(aofFile) + ToBytes(AsReply(line))
    {
      var data := MultiBulkToBytes(Present(line));
      aofFile := aofFile + data;
    }

    /** One turn of handleAof, without write errors. */
    method HandleNext()
      requires Valid() && aofChan != []
      modifies this
      ensures Valid() && handed == old(handed) && taken == old(taken) + [old(aofChan)[0]]
    {
      hide ToBytes, AsReply, FileOf, Frame, SelectLine;
      var p := aofChan[0];
      DrainStep(existing, taken, p);
      assert aofChan == [p] + aofChan[1..];
      Assoc(taken, [p], aofChan[1..]);
      aofChan := aofChan[1..];
      if p.dbIndex != currentDB {
        Write(SelectLine(p.dbIndex));
        currentDB := p.dbIndex;
      }
      Write(p.line);
      taken := taken + [p];
    }

    /** When the channel is drained, the file holds everything ever handed over, framed and in order. */
    method HandleAof()
      requires Valid()
      modifies this
      ensures Valid() && aofChan == [] && handed == old(handed)
      ensures aofFile == existing + Written(0, handed)
    {
      hide FileOf, Frame;
      while aofChan != []
        invariant Valid() && handed == old(handed)
        decreases |aofChan|
      {
        HandleNext();
      }
      assert taken + [] == taken;
    }
  }

  lemma NothingWritten(file: Bytes)
    ensures file + FileOf(Frame(0, [])) == file
  {
  }

  /** What one record adds to the file. */
  lemma DrainStep(file: Bytes, done: seq<Record>, p: Record)
    ensures var before := file + FileOf(Frame(0, done));
            var switched :=
              if p.dbIndex != LastDb(0, done) then before + ToBytes(AsReply(SelectLine(p.dbIndex))) else before;
            file + FileOf(Frame(0, done + [p])) == switched + ToBytes(AsReply(p.line))
  {
    hide ToBytes, AsReply, FileOf, Frame, SelectLine;
    var switch := if p.dbIndex != LastDb(0, done) then [SelectLine(p.dbIndex)] else [];
    FrameMore(0, done, p);
    FileOfConcat(Frame(0, done), switch + [p.line]);
    FileOfSwitch(switch, p.line);
    var before := file + FileOf(Frame(0, done));
    Assoc(file, FileOf(Frame(0, done)), FileOf(switch + [p.line]));
    if switch != [] {
      Assoc(before, ToBytes(AsReply(switch[0])), ToBytes(AsReply(p.line)));
    }
  }

  lemma {:induction false} FrameMore(current: int, records: seq<Record>, r: Record)
    ensures Frame(current, records + [r]) ==
            Frame(current, records)
            + ((if r.dbIndex != LastDb(current, records) then [SelectLine(r.dbIndex)] else []) + [r.line])
    decreases |records|
  {
    hide SelectLine;
    var switch := (if r.dbIndex != LastDb(current, records) then [SelectLine(r.dbIndex)] else []) + [r.line];
    if records == [] {
      assert [] + [r] == [r] && [r][1..] == [] && [] + switch == switch && switch + [] == switch;
    } else {
      var first := records[0];
      assert (records + [r])[1..] == records[1..] + [r];
      FrameMore(first.dbIndex, records[1..], r);
      var head := (if first.dbIndex != current then [SelectLine(first.dbIndex)] else []) + [first.line];
      Assoc(head, Frame(first.dbIndex, records[1..]), switch);
    }
  }

  lemma {:induction false} PrintAllConcat(a: seq<Reply>, b: seq<Reply>)
    ensures PrintAll(a + b) == PrintAll(a) + PrintAll(b)
  {
    hide ToBytes;
    if a == [] {
      assert a + b == b;
    } else {
      assert (a + b)[1..] == a[1..] + b;
      PrintAllConcat(a[1..], b);
      Assoc(ToBytes(a[0]), PrintAll(a[1..]), PrintAll(b));
    }
  }

  lemma FileOfConcat(a: seq<CmdLine>, b: seq<CmdLine>)
    ensures FileOf(a + b) == FileOf(a) + FileOf(b)
  {
    hide AsReply, PrintAll, ToBytes;
    PrintAllConcat(AsReplies(a), AsReplies(b));
    assert AsReplies(a + b) == AsReplies(a) + AsReplies(b);
  }

  lemma FileOfOne(line: CmdLine)
    ensures FileOf([line]) == ToBytes(AsReply(line))
  {
    hide ToBytes, AsReply;
    var rs := AsReplies([line]);
    assert rs == [AsReply(line)] && rs[1..] == [];
    assert PrintAll(rs) == ToBytes(rs[0]) + PrintAll(rs[1..]) == ToBytes(rs[0]) + [];
  }

  lemma FileOfSwitch(switch: seq<CmdLine>, line: CmdLine)
    requires |switch| <= 1
    ensures FileOf(switch + [line]) ==
            if switch == [] then ToBytes(AsReply(line))
            else ToBytes(AsReply(switch[0])) + ToBytes(AsReply(line))
  {
    hide ToBytes, AsReply, FileOf;
    FileOfOne(line);
    if switch == [] {
      assert switch + [line] == [line];
    } else {
      assert switch == [switch[0]];
      FileOfOne(switch[0]);
      FileOfConcat(switch, [line]);
    }
  }
}
