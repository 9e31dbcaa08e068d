/** What the event-stream parser emits for well-formed blocks of event and data lines. */
module EventBlocks {
  import opened Text
  import opened EventStream

  /** One event as it is sent: the texts behind "event:" and behind each "data:". */
  datatype Block = Block(name: Option<string>, data: seq<string>)

  predicate IsLineText(s: string) {
    '\n' !in s && !EndsWith(s, "\r")
  }

  predicate IsBlock(b: Block) {
    b.data != [] && (b.name.Some? ==> IsLineText(b.name.value)) && forall d :: d in b.data ==> IsLineText(d)
  }

  function DataLines(data: seq<string>): seq<string> {
    if data == [] then [] else ["data:" + data[0]] + DataLines(data[1..])
  }

  function BlockLines(b: Block): seq<string> {
    (if b.name.Some? then ["event:" + b.name.value] else []) + DataLines(b.data) + [""]
  }

  function TrimmedStarts(data: seq<string>): seq<string> {
    if data == [] then [] else [TrimStart(data[0])] + TrimmedStarts(data[1..])
  }

  /** A name counts without the white space around it, a data line without the white space before it; keep-alives are no events. */
  function EventsOf(b: Block): seq<Event> {
    var data := Join(TrimmedStarts(b.data), '\n');
    if ToUpper(data) == "KEEPALIVE" then []
    else [Event(if b.name.Some? then Trim(b.name.value) else "", data)]
  }

  lemma KeepaliveExactly(data: string)
    ensures EqualsIgnoringCase(data, "keepalive") <==> ToUpper(data) == "KEEPALIVE"
  {
    var (lower, upper) := ("keepalive", "KEEPALIVE");
    assert forall i :: 0 <= i < 9 ==> UpperChar(lower[i]) == upper[i] && LowerChar(lower[i]) == lower[i];
    assert forall c: char, d: char :: 'a' <= d <= 'z' ==> (LowerChar(c) == d <==> UpperChar(c) == UpperChar(d));
    if |data| == 9 {
      assert forall i :: 0 <= i < 9 ==> (LowerChar(data[i]) == LowerChar(lower[i]) <==> ToUpper(data)[i] == upper[i]);
    }
  }

  lemma {:induction false} HandleLinesConcat(p: Parser, a: seq<string>, b: seq<string>)
    ensures HandleLines(p, a + b) == HandleLines(HandleLines(p, a), b)
    decreases |a|
  {
    hide HandleLine, DropCarriageReturn;
    if a == [] {
      assert a + b == b;
    } else {
      assert (a + b)[0] == a[0] && (a + b)[1..] == a[1..] + b;
      HandleLinesConcat(HandleLine(p, DropCarriageReturn(a[0])), a[1..], b);
    }
  }

  lemma FieldKeepsEnd(field: string, text: string)
    requires IsLineText(text) && '\n' !in field && field != "" && field[|field| - 1] == ':'
    ensures DropCarriageReturn(field + text) == field + text && '\n' !in field + text
  {
    var line := field + text;
    if text == "" {
      assert line[|line| - 1..] == [':'];
    } else {
      assert line[|line| - 1..] == text[|text| - 1..];
    }
  }

  lemma SingleLine(p: Parser, line: string)
    ensures HandleLines(p, [line]) == HandleLine(p, DropCarriageReturn(line))
  {
    var lines := [line];
    assert lines[1..] == [];
    hide HandleLine, DropCarriageReturn;
  }

  lemma NameLine(p: Parser, name: string)
    requires IsLineText(name)
    ensures HandleLines(p, ["event:" + name]) == p.(eventName := Trim(name))
  {
    var line := "event:" + name;
    FieldKeepsEnd("event:", name);
    assert line[..6] == "event:" && line[6..] == name && line[..1][0] != ':';
    SingleLine(p, line);
    hide Trim;
  }

  lemma DataField(p: Parser, line: string)
    requires |line| >= 5 && line[..5] == "data:"
    ensures HandleLine(p, line) == p.(dataLines := p.dataLines + [TrimStart(line[5..])])
  {
    hide TrimStart, Dispatch, Trim;
    assert line[0] == line[..5][0] == 'd';
    assert !StartsWith(line, ":") by {
      assert line[..1][0] != ':';
    }
    assert !StartsWith(line, "event:") by {
      if |line| >= 6 {
        assert line[..6][0] != 'e';
      }
    }
  }

  lemma DataLine(p: Parser, data: string)
    requires IsLineText(data)
    ensures HandleLine(p, DropCarriageReturn("data:" + data)) == p.(dataLines := p.dataLines + [TrimStart(data)])
  {
    hide TrimStart, HandleLine, DropCarriageReturn, IsLineText;
    var line := "data:" + data;
    FieldKeepsEnd("data:", data);
    assert line[..5] == "data:" && line[5..] == data;
    DataField(p, line);
  }

  lemma {:induction false} DataLinesCollected(p: Parser, data: seq<string>)
    requires forall d :: d in data ==> IsLineText(d)
    ensures HandleLines(p, DataLines(data)) == p.(dataLines := p.dataLines + TrimmedStarts(data))
    decreases |data|
  {
    hide HandleLine, DropCarriageReturn, TrimStart, IsLineText;
    if data == [] {
      assert p.dataLines + [] == p.dataLines;
    } else {
      DataLine(p, data[0]);
      DataLinesCollected(p.(dataLines := p.dataLines + [TrimStart(data[0])]), data[1..]);
      assert p.dataLines + [TrimStart(data[0])] + TrimmedStarts(data[1..]) == p.dataLines + TrimmedStarts(data);
    }
  }

  lemma BlankLine(p: Parser)
    requires p.dataLines != []
    ensures var data := Join(p.dataLines, '\n');
      HandleLines(p, [""]) == p.(eventName := "", dataLines := [],
        emitted := p.emitted + (if ToUpper(data) == "KEEPALIVE" then [] else [Event(p.eventName, data)]))
  {
    KeepaliveExactly(Join(p.dataLines, '\n'));
    assert DropCarriageReturn("") == "";
    SingleLine(p, "");
    assert p.emitted + [] == p.emitted;
    hide Join, ToUpper, EqualsIgnoringCase;
  }

  /** A block emits its event and leaves nothing behind. */
  lemma BlockEmits(p: Parser, b: Block)
    requires IsBlock(b) && p.eventName == "" && p.dataLines == []
    ensures HandleLines(p, BlockLines(b)) == p.(emitted := p.emitted + EventsOf(b))
  {
    hide HandleLines, IsLineText, Join, ToUpper, Trim;
    var nameLines := if b.name.Some? then ["event:" + b.name.value] else [];
    var named := p.(eventName := if b.name.Some? then Trim(b.name.value) else "");
    assert HandleLines(p, nameLines) == named by {
      if b.name.Some? {
        NameLine(p, b.name.value);
      } else {
        NoLines(p);
      }
    }
    DataLinesCollected(named, b.data);
    assert [] + TrimmedStarts(b.data) == TrimmedStarts(b.data);
    var collected := named.(dataLines := TrimmedStarts(b.data));
    assert TrimmedStarts(b.data) != [];
    BlankLine(collected);
    HandleLinesConcat(p, nameLines + DataLines(b.data), [""]);
    HandleLinesConcat(p, nameLines, DataLines(b.data));
  }

  lemma NoLines(p: Parser)
    ensures HandleLines(p, []) == p
  {
  }

  function StreamLines(blocks: seq<Block>): seq<string> {
    if blocks == [] then [] else BlockLines(blocks[0]) + StreamLines(blocks[1..])
  }

  function Events(blocks: seq<Block>): seq<Event> {
    if blocks == [] then [] else EventsOf(blocks[0]) + Events(blocks[1..])
  }

  /** The blocks as text, every line ended by a line feed. */
  function StreamText(blocks: seq<Block>): string {
    Join(StreamLines(blocks) + [""], '\n')
  }

  lemma {:induction false} BlocksEmit(p: Parser, blocks: seq<Block>)
    requires (forall b :: b in blocks ==> IsBlock(b)) && p.eventName == "" && p.dataLines == []
    ensures HandleLines(p, StreamLines(blocks)) == p.(emitted := p.emitted + Events(blocks))
    decreases |blocks|
  {
    hide HandleLines, IsBlock, BlockLines, EventsOf;
    if blocks == [] {
      NoLines(p);
      assert p.emitted + [] == p.emitted;
    } else {
      BlockEmits(p, blocks[0]);
      BlocksEmit(p.(emitted := p.emitted + EventsOf(blocks[0])), blocks[1..]);
      HandleLinesConcat(p, BlockLines(blocks[0]), StreamLines(blocks[1..]));
      assert p.emitted + EventsOf(blocks[0]) + Events(blocks[1..]) == p.emitted + Events(blocks);
    }
  }

  lemma {:induction false} DataLinesHoldNoFeed(data: seq<string>)
    requires forall d :: d in data ==> IsLineText(d)
    ensures forall l :: l in DataLines(data) ==> '\n' !in l
    decreases |data|
  {
    if data != [] {
      FieldKeepsEnd("data:", data[0]);
      DataLinesHoldNoFeed(data[1..]);
    }
  }

  lemma {:induction false} StreamLinesHoldNoFeed(blocks: seq<Block>)
    requires forall b :: b in blocks ==> IsBlock(b)
    ensures forall l :: l in StreamLines(blocks) ==> '\n' !in l
    decreases |blocks|
  {
    hide IsLineText, DataLines;
    if blocks != [] {
      var b := blocks[0];
      assert IsBlock(b);
      if b.name.Some? {
        FieldKeepsEnd("event:", b.name.value);
      }
      DataLinesHoldNoFeed(b.data);
      StreamLinesHoldNoFeed(blocks[1..]);
    }
  }

  /** A stream of blocks emits exactly their events, in order, and leaves the parser as it started. */
  lemma StreamEmitsEvents(blocks: seq<Block>)
    requires forall b :: b in blocks ==> IsBlock(b)
    ensures Feed(START, StreamText(blocks)) == START.(emitted := Events(blocks))
  {
    hide HandleLines, IsBlock, StreamLines, Events, Drain, Join, Split;
    var lines := StreamLines(blocks) + [""];
    StreamLinesHoldNoFeed(blocks);
    SplitJoin(lines, '\n');
    var fed := START.(buffer := START.buffer + StreamText(blocks));
    assert fed.buffer == StreamText(blocks);
    DrainHandlesLines(fed);
    assert lines[..|lines| - 1] == StreamLines(blocks);
    HandleLinesIgnoresBuffer(START, StreamLines(blocks), fed.buffer);
    BlocksEmit(START, blocks);
    assert [] + Events(blocks) == Events(blocks);
  }

  /** However the stream is cut into chunks of whole characters. */
  lemma ChunkedStreamEmitsEvents(blocks: seq<Block>, chunks: seq<string>)
    requires forall b :: b in blocks ==> IsBlock(b)
    requires Concat(chunks) == StreamText(blocks) && forall i :: 0 <= i < |chunks| ==> IsUtf8(chunks[i])
    ensures FeedChunks(START, chunks) == START.(emitted := Events(blocks))
  {
    hide *;
    StreamEmitsEvents(blocks);
    ChunkingIsInvisible(chunks, chunks);
  }

  /** Comments, fields other than these two, and lines without a colon are ignored; so is a carriage return at the end of any line. */
  lemma IgnoredLines(p: Parser, line: string)
    requires line != "" && !StartsWith(line, "event:") && !StartsWith(line, "data:")
    ensures HandleLine(p, line) == p
    ensures HandleLines(p, [line + "\r"]) == HandleLine(p, line)
  {
    assert DropCarriageReturn(line + "\r") == line;
    SingleLine(p, line + "\r");
  }

  /** A carriage return before the line feed makes no difference. */
  lemma CarriageReturnIgnored(p: Parser, line: string)
    requires !EndsWith(line, "\r")
    ensures HandleLines(p, [line + "\r"]) == HandleLines(p, [line])
  {
    assert DropCarriageReturn(line + "\r") == line;
    SingleLine(p, line);
    SingleLine(p, line + "\r");
    hide HandleLine;
  }

  /** A blank line without data before it emits nothing, and a name read before it stays for the next event. */
  lemma BlankWithoutData(p: Parser)
    requires p.dataLines == []
    ensures HandleLines(p, [""]) == p
  {
    assert DropCarriageReturn("") == "";
    SingleLine(p, "");
  }
}
