/** The desktop client's incremental parser of the core's server-sent event stream. */
module EventStream {
  import opened Text
  import Percent

  /** One emitted event: its name and joined data, before the payload itself is interpreted. */
  datatype Event = Event(name: string, data: string)

  datatype Parser = Parser(buffer: string, eventName: string, dataLines: seq<string>, emitted: seq<Event>)

  const START := Parser("", "", [], [])

  function LowerChar(c: char): char {
    if 'A' <= c <= 'Z' then (c as int + 32) as char else c
  }

  predicate EqualsIgnoringCase(a: string, b: string) {
    |a| == |b| && forall i :: 0 <= i < |a| ==> LowerChar(a[i]) == LowerChar(b[i])
  }

  /** An empty line ends an event; keep-alives are swallowed. */
  function Dispatch(p: Parser): Parser {
    if p.dataLines == [] then p
    else
      var data := Join(p.dataLines, '\n');
      var emitted := if EqualsIgnoringCase(data, "keepalive") then p.emitted
                     else p.emitted + [Event(p.eventName, data)];
      p.(eventName := "", dataLines := [], emitted := emitted)
  }

  function HandleLine(p: Parser, line: string): Parser {
    if line == "" then Dispatch(p)
    else if StartsWith(line, ":") then p
    else if StartsWith(line, "event:") then p.(eventName := Trim(line[|"event:"|..]))
    else if StartsWith(line, "data:") then p.(dataLines := p.dataLines + [TrimStart(line[|"data:"|..])])
    else p
  }

  /** The buffer plays no part in handling a line. */
  lemma HandleLineIgnoresBuffer(p: Parser, line: string, buffer: string)
    ensures HandleLine(p.(buffer := buffer), line) == HandleLine(p, line).(buffer := buffer)
  {
  }

  /** Takes every complete line out of the buffer. */
  function Drain(p: Parser): (r: Parser)
    decreases |p.buffer|
  {
    match Find(p.buffer, "\n")
    case None => p
    case Some(i) =>
      Drain(HandleLine(p, DropCarriageReturn(p.buffer[..i])).(buffer := p.buffer[i + 1..]))
  }

  /** One network chunk, already as text. */
  function Feed(p: Parser, text: string): Parser {
    Drain(p.(buffer := p.buffer + text))
  }

  function FeedChunks(p: Parser, chunks: seq<string>): Parser
    decreases |chunks|
  {
    if chunks == [] then p else FeedChunks(Feed(p, Percent.Lossy(chunks[0])), chunks[1..])
  }

  class Bridge {
    var buffer: string
    var eventName: string
    var dataLines: seq<string>
    var emitted: seq<Event>

    function Abstract(): Parser
      reads this
    {
      Parser(buffer, eventName, dataLines, emitted)
    }

    constructor ()
      ensures Abstract() == START
    {
      buffer, eventName, dataLines, emitted := "", "", [], [];
    }

    /** One line, as the loop body treats it */
    method Handle(line: string)
      modifies `eventName, `dataLines, `emitted
      ensures Abstract() == HandleLine(old(Abstract()), line)
    {
      hide Trim, TrimStart, EqualsIgnoringCase, Join;
      if line == "" {
        if dataLines != [] {
          var data := Join(dataLines, '\n');
          if !EqualsIgnoringCase(data, "keepalive") {
            emitted := emitted + [Event(eventName, data)];
          }
          eventName := "";
          dataLines := [];
        }
        return;
      }
      if StartsWith(line, ":") {
        return;
      }
      if StartsWith(line, "event:") {
        eventName := Trim(line[|"event:"|..]);
        return;
      }
      if StartsWith(line, "data:") {
        dataLines := dataLines + [TrimStart(line[|"data:"|..])];
      }
    }

    /** The inner loop of the reading task, for one chunk of bytes */
    method PushChunk(chunk: string)
      modifies this
      ensures Abstract() == Feed(old(Abstract()), Percent.Lossy(chunk))
    {
      hide Percent.Lossy, HandleLine, DropCarriageReturn, FindFrom;
      buffer := buffer + Percent.Lossy(chunk);
      var found := Find(buffer, "\n");
      while found.Some?
        invariant found == Find(buffer, "\n")
        invariant Drain(Abstract()) == Feed(old(Abstract()), Percent.Lossy(chunk))
        decreases |buffer|
      {
        var line := DropCarriageReturn(buffer[..found.value]);
        ghost var before := Abstract();
        buffer := buffer[found.value + 1..];
        HandleLineIgnoresBuffer(before, line, buffer);
        Handle(line);
        found := Find(buffer, "\n");
      }
    }
  }

  // ---------------------------------------------------------------- the reference: lines of the whole stream

  function HandleLines(p: Parser, lines: seq<string>): Parser
    decreases |lines|
  {
    if lines == [] then p else HandleLines(HandleLine(p, DropCarriageReturn(lines[0])), lines[1..])
  }

  lemma {:induction false} HandleLinesIgnoresBuffer(p: Parser, lines: seq<string>, buffer: string)
    ensures HandleLines(p.(buffer := buffer), lines) == HandleLines(p, lines).(buffer := buffer)
    decreases |lines|
  {
    hide HandleLine, DropCarriageReturn;
    if lines != [] {
      HandleLineIgnoresBuffer(p, DropCarriageReturn(lines[0]), buffer);
      HandleLinesIgnoresBuffer(HandleLine(p, DropCarriageReturn(lines[0])), lines[1..], buffer);
    }
  }

  /** Draining handles the complete lines in order and keeps the unfinished last one. */
  lemma {:induction false} DrainHandlesLines(p: Parser)
    ensures var pieces := Split(p.buffer, '\n');
            var last := |pieces| - 1;
            Drain(p) == HandleLines(p, pieces[..last]).(buffer := pieces[last])
    decreases |p.buffer|
  {
    hide HandleLine, DropCarriageReturn, Split, FindFrom;
    match Find(p.buffer, "\n")
    case None =>
      NoneMeansAbsent(p.buffer);
      SplitSingle(p.buffer, '\n');
    case Some(i) =>
      var (a, rest) := (p.buffer[..i], p.buffer[i + 1..]);
      FirstLineFeed(p.buffer, i);
      SplitFirst(a, '\n', rest);
      assert p.buffer == a + ['\n'] + rest;
      var next := HandleLine(p, DropCarriageReturn(a)).(buffer := rest);
      DrainHandlesLines(next);
      var (pieces, others) := (Split(p.buffer, '\n'), Split(rest, '\n'));
      assert pieces == [a] + others;
      assert pieces[..|pieces| - 1][1..] == others[..|others| - 1];
      HandleLinesIgnoresBuffer(HandleLine(p, DropCarriageReturn(a)), others[..|others| - 1], rest);
  }

  lemma NoneMeansAbsent(s: string)
    requires Find(s, "\n") == None
    ensures '\n' !in s
  {
    forall i | 0 <= i < |s| ensures s[i] != '\n' {
      OccursAtChar(s, '\n', i);
      assert ['\n'] == "\n";
    }
  }

  lemma FirstLineFeed(s: string, i: nat)
    requires Find(s, "\n") == Some(i)
    ensures i < |s| && s[i] == '\n' && '\n' !in s[..i]
  {
    assert ['\n'] == "\n";
    OccursAtChar(s, '\n', i);
    forall j | 0 <= j < i ensures s[j] != '\n' {
      OccursAtChar(s, '\n', j);
    }
  }

  // ---------------------------------------------------------------- chunking

  lemma FindInPrefix(s: string, t: string)
    ensures Find(s, "\n").Some? ==> Find(s + t, "\n") == Find(s, "\n")
  {
    if Find(s, "\n").Some? {
      var i := Find(s, "\n").value;
      assert OccursAt(s, "\n", i);
      OccursAtChar(s, '\n', i);
      OccursAtChar(s + t, '\n', i);
      assert OccursAt(s + t, "\n", i);
      var j := Find(s + t, "\n").value;
      OccursAtChar(s + t, '\n', j);
      OccursAtChar(s, '\n', j);
      assert OccursAt(s, "\n", j);
    }
  }

  /** Draining early and then appending is the same as appending and then draining. */
  lemma {:induction false} DrainThenAppend(p: Parser, text: string)
    ensures Drain(Drain(p).(buffer := Drain(p).buffer + text)) == Drain(p.(buffer := p.buffer + text))
    decreases |p.buffer|
  {
    match Find(p.buffer, "\n")
    case None =>
    case Some(i) =>
      var line := DropCarriageReturn(p.buffer[..i]);
      var whole := p.(buffer := p.buffer + text);
      var next := HandleLine(p, line).(buffer := p.buffer[i + 1..]);
      FindInPrefix(p.buffer, text);
      DrainThenAppend(next, text);
      assert whole.buffer[..i] == p.buffer[..i];
      assert whole.buffer[i + 1..] == p.buffer[i + 1..] + text;
      HandleLineIgnoresBuffer(p, line, whole.buffer);
  }

  lemma FeedTwice(p: Parser, a: string, b: string)
    ensures Feed(Feed(p, a), b) == Feed(p, a + b)
  {
    hide Drain;
    DrainThenAppend(p.(buffer := p.buffer + a), b);
    assert p.buffer + a + b == p.buffer + (a + b);
  }

  function LossyConcat(chunks: seq<string>): string {
    if chunks == [] then "" else Percent.Lossy(chunks[0]) + LossyConcat(chunks[1..])
  }

  function Concat(chunks: seq<string>): string {
    if chunks == [] then "" else chunks[0] + Concat(chunks[1..])
  }

  /** A parser that has handled every complete line. */
  predicate Drained(p: Parser) {
    Find(p.buffer, "\n") == None
  }

  lemma {:induction false} DrainDrains(p: Parser)
    ensures Drained(Drain(p))
    decreases |p.buffer|
  {
    match Find(p.buffer, "\n")
    case None =>
    case Some(i) =>
      DrainDrains(HandleLine(p, DropCarriageReturn(p.buffer[..i])).(buffer := p.buffer[i + 1..]));
  }

  /** Whatever the chunks, feeding them one by one equals feeding their lossily decoded texts at once. */
  lemma {:induction false} ChunksAsOne(p: Parser, chunks: seq<string>)
    requires Drained(p)
    ensures FeedChunks(p, chunks) == Feed(p, LossyConcat(chunks))
    decreases |chunks|
  {
    hide Percent.Lossy;
    if chunks == [] {
      assert p.buffer + "" == p.buffer;
    } else {
      var first := Percent.Lossy(chunks[0]);
      DrainDrains(p.(buffer := p.buffer + first));
      ChunksAsOne(Feed(p, first), chunks[1..]);
      FeedTwice(p, first, LossyConcat(chunks[1..]));
    }
  }

  lemma {:induction false} WholeCharactersConcat(chunks: seq<string>)
    requires forall i :: 0 <= i < |chunks| ==> IsUtf8(chunks[i])
    ensures LossyConcat(chunks) == Concat(chunks)
    decreases |chunks|
  {
    hide IsUtf8, Percent.Lossy;
    if chunks != [] {
      Percent.LossyOfUtf8(chunks[0]);
      WholeCharactersConcat(chunks[1..]);
    }
  }

  /**
   Chunk independence: two ways of cutting the same stream at character boundaries emit the same
   events and leave the same parser state.
   */
  lemma ChunkingIsInvisible(chunks: seq<string>, others: seq<string>)
    requires forall i :: 0 <= i < |chunks| ==> IsUtf8(chunks[i])
    requires forall i :: 0 <= i < |others| ==> IsUtf8(others[i])
    requires Concat(chunks) == Concat(others)
    ensures FeedChunks(START, chunks) == FeedChunks(START, others)
    ensures FeedChunks(START, chunks) == Feed(START, Concat(chunks))
  {
    hide IsUtf8, Percent.Lossy, Feed;
    assert Drained(START);
    ChunksAsOne(START, chunks);
    ChunksAsOne(START, others);
    WholeCharactersConcat(chunks);
    WholeCharactersConcat(others);
  }

  lemma {:induction false} LossyConcatIsNoShorter(chunks: seq<string>)
    ensures |LossyConcat(chunks)| >= |Concat(chunks)|
    decreases |chunks|
  {
    hide Percent.Lossy;
    if chunks != [] {
      Percent.LossyIsNoShorter(chunks[0]);
      LossyConcatIsNoShorter(chunks[1..]);
    }
  }

  /** The text of a stream survives the cuts exactly when every chunk is valid UTF-8 by itself. */
  lemma {:induction false} LossyConcatExactly(chunks: seq<string>)
    ensures LossyConcat(chunks) == Concat(chunks) <==> forall i :: 0 <= i < |chunks| ==> IsUtf8(chunks[i])
    decreases |chunks|
  {
    if forall i :: 0 <= i < |chunks| ==> IsUtf8(chunks[i]) {
      WholeCharactersConcat(chunks);
    } else if LossyConcat(chunks) == Concat(chunks) {
      hide IsUtf8, Percent.Lossy;
      var (first, rest) := (chunks[0], chunks[1..]);
      Percent.LossyIsNoShorter(first);
      LossyConcatIsNoShorter(rest);
      assert Percent.Lossy(first) == (Percent.Lossy(first) + LossyConcat(rest))[..|first|] == first;
      assert LossyConcat(rest) == (Percent.Lossy(first) + LossyConcat(rest))[|first|..] == Concat(rest);
      Percent.LossyFixesExactlyUtf8(first);
      LossyConcatExactly(rest);
      forall i | 0 <= i < |chunks| ensures IsUtf8(chunks[i]) {
        assert i > 0 ==> chunks[i] == rest[i - 1];
      }
    }
  }

  lemma {:induction false} NoLineFeedInChunks(chunks: seq<string>)
    requires '\n' !in Concat(chunks)
    ensures '\n' !in LossyConcat(chunks)
    decreases |chunks|
  {
    hide Percent.Lossy;
    if chunks != [] {
      Percent.LossyAddsNoLineFeed(chunks[0]);
      NoLineFeedInChunks(chunks[1..]);
    }
  }

  /**
   On a stream that still waits for its first line feed, the parser is in the state of the uncut
   stream exactly when no cut falls inside a character.
   */
  lemma CutsInvisibleExactly(chunks: seq<string>)
    requires '\n' !in Concat(chunks)
    ensures FeedChunks(START, chunks) == Feed(START, Concat(chunks))
       <==> forall i :: 0 <= i < |chunks| ==> IsUtf8(chunks[i])
  {
    hide IsUtf8, Feed, FeedChunks, Concat, LossyConcat;
    assert Drained(START);
    ChunksAsOne(START, chunks);
    NoLineFeedInChunks(chunks);
    NoLineNoChange(LossyConcat(chunks));
    NoLineNoChange(Concat(chunks));
    LossyConcatExactly(chunks);
  }

  /** A continuation byte or a lead byte alone is a broken piece of its own. */
  lemma LossyOfOneByte(c: char)
    requires 0x80 <= c as int < 0x100
    ensures Percent.Lossy([c]) == Percent.REPLACEMENT
  {
    assert LeadLength([c]) == 0 && Percent.BrokenLength([c]) == 1;
    hide LeadLength, Percent.BrokenLength;
    assert [c][1..] == "";
    assert Percent.Lossy("") == "";
    assert Percent.REPLACEMENT + "" == Percent.REPLACEMENT;
  }

  lemma LossyHalves()
    ensures Percent.Lossy("\U{C3}") == Percent.REPLACEMENT && Percent.Lossy("\U{A9}") == Percent.REPLACEMENT
    ensures Percent.Lossy("\U{C3}\U{A9}") == "\U{C3}\U{A9}"
  {
    hide Percent.Lossy;
    LossyOfOneByte('\U{C3}');
    LossyOfOneByte('\U{A9}');
    var whole := "\U{C3}\U{A9}";
    assert LeadLength(whole) == 2 && whole[2..] == "";
    assert IsUtf8(whole);
    Percent.LossyOfUtf8(whole);
  }

  /** A cut inside a character is visible: each half is replaced by U+FFFD. Here the two bytes of U+00E9. */
  lemma CutCharacterIsVisible()
    ensures Concat(["\U{C3}", "\U{A9}"]) == Concat(["\U{C3}\U{A9}"])
    ensures FeedChunks(START, ["\U{C3}", "\U{A9}"]) != FeedChunks(START, ["\U{C3}\U{A9}"])
  {
    var (halves, whole) := (["\U{C3}", "\U{A9}"], ["\U{C3}\U{A9}"]);
    LossyHalves();
    hide Percent.Lossy;
    assert halves[1..] == ["\U{A9}"] && ["\U{A9}"][1..] == [] && whole[1..] == [];
    assert Concat(["\U{A9}"]) == "\U{A9}" && Concat(halves) == "\U{C3}\U{A9}" == Concat(whole);
    assert LossyConcat(["\U{A9}"]) == Percent.REPLACEMENT;
    assert LossyConcat(halves) == Percent.REPLACEMENT + Percent.REPLACEMENT;
    assert LossyConcat(whole) == "\U{C3}\U{A9}";
    ChunksAsOne(START, halves);
    ChunksAsOne(START, whole);
    NoLineNoChange(Percent.REPLACEMENT + Percent.REPLACEMENT);
    NoLineNoChange("\U{C3}\U{A9}");
  }

  lemma NoLineNoChange(text: string)
    requires '\n' !in text
    ensures Feed(START, text) == START.(buffer := text)
  {
    assert START.buffer + text == text;
    SplitOnceNone(text, '\n');
  }
}
