/**
 The payloads that the subscription parser accepts beside its own printer's: plain lists, base64
 in any variant and with line breaks in it, other formats, and a list behind a byte order mark.
 */
module PayloadForms {
  import opened Text
  import opened ShareLinks
  import opened UriParser
  import opened SubscriptionRoundTrip
  import Base64
  import Utf8

  // ---------------------------------------------------------------- plain lists

  lemma NothingIsNoList()
    ensures !LooksLikeUriList("")
  {
    SplitSingle("", '\n');
    assert Lines("") == [];
  }

  /** A text that looks like a list once trimmed is parsed line by line, as it is. */
  lemma PlainListParses(ext: Externals, payload: string)
    requires LooksLikeUriList(Trim(payload))
    ensures ParsePayload(ext, payload) == Some(LinesNodes(ext, Lines(Trim(payload))))
  {
    NothingIsNoList();
    hide LooksLikeUriList, LinesNodes, Lines, Trim;
  }

  /** Printed links round trip without the base64 around them under the same condition. */
  lemma PlainRoundTrip(ext: Externals, nodes: seq<ProxyNode>)
    requires AllPrintable(nodes) && nodes != []
    ensures ParsePayload(ext, Join(Links(nodes), '\n')) == Some(Canonicals(nodes)) <==> AllReadBack(nodes)
  {
    hide AllPrintable, AllReadBack, WellShaped, ParsePayload, LinesNodes, Join, LooksLikeUriList, Canonicals, Lines;
    var links := Links(nodes);
    ShapedLinks(nodes);
    JoinedEnds(links);
    TrimmedEnds(Join(links, '\n'));
    JoinedLooksLikeList(links);
    PlainListParses(ext, Join(links, '\n'));
    LinesOfJoined(links);
    LinksReadBack(ext, nodes);
  }

  lemma TrimmedEnds(text: string)
    requires text != "" && text[0] == 's' && IsPlainAscii(text[|text| - 1])
    ensures Trim(text) == text
  {
    TrimVisible(text);
  }

  lemma {:induction false} ShapedLinks(nodes: seq<ProxyNode>)
    requires AllPrintable(nodes)
    ensures |Links(nodes)| == |nodes| && forall l :: l in Links(nodes) ==> WellShaped(l)
    decreases |nodes|
  {
    hide Printable, WellShaped, LinkOf, AllRustNodes;
    if nodes != [] {
      LinkIsWellShaped(nodes[0]);
      ShapedLinks(nodes[1..]);
    }
  }

  /** Carriage returns before the line feeds make no difference. */
  function CrLfJoin(lines: seq<string>): string {
    if lines == [] then ""
    else if |lines| == 1 then lines[0]
    else lines[0] + "\r\n" + CrLfJoin(lines[1..])
  }

  function WithCarriageReturns(lines: seq<string>): seq<string> {
    if |lines| <= 1 then lines else [lines[0] + "\r"] + WithCarriageReturns(lines[1..])
  }

  lemma {:induction false} CrLfPieces(lines: seq<string>)
    requires lines != [] && forall l :: l in lines ==> '\n' !in l
    ensures Split(CrLfJoin(lines), '\n') == WithCarriageReturns(lines)
    ensures |WithCarriageReturns(lines)| == |lines|
    ensures WithCarriageReturns(lines)[|lines| - 1] == lines[|lines| - 1]
    ensures forall i :: 0 <= i < |lines| - 1 ==> WithCarriageReturns(lines)[i] == lines[i] + "\r"
    decreases |lines|
  {
    hide Split;
    if |lines| == 1 {
      SplitSingle(lines[0], '\n');
    } else {
      CrLfPieces(lines[1..]);
      assert lines[0] + "\r\n" + CrLfJoin(lines[1..]) == (lines[0] + "\r") + ['\n'] + CrLfJoin(lines[1..]);
      SplitFirst(lines[0] + "\r", '\n', CrLfJoin(lines[1..]));
    }
  }

  /** The pieces of a text that does not end in a line feed are its lines, up to carriage returns before the line feeds. */
  lemma LinesOfPieces(text: string, lines: seq<string>)
    requires var pieces := Split(text, '\n');
      && |pieces| == |lines| && lines[|lines| - 1] == pieces[|lines| - 1] != ""
      && forall i :: 0 <= i < |lines| - 1 ==> DropCarriageReturn(pieces[i]) == lines[i]
    ensures Lines(text) == lines
  {
    hide Split, DropCarriageReturn;
    assert lines == lines[..|lines| - 1] + [lines[|lines| - 1]];
  }

  lemma DropsCarriageReturn(line: string)
    ensures DropCarriageReturn(line + "\r") == line
  {
  }

  lemma CrLfLines(lines: seq<string>)
    requires lines != [] && (forall l :: l in lines ==> '\n' !in l) && lines[|lines| - 1] != ""
    ensures Lines(CrLfJoin(lines)) == lines
  {
    CrLfPieces(lines);
    hide Split, CrLfJoin, WithCarriageReturns, DropCarriageReturn, Lines;
    forall i | 0 <= i < |lines| - 1 ensures DropCarriageReturn(lines[i] + "\r") == lines[i] {
      DropsCarriageReturn(lines[i]);
    }
    LinesOfPieces(CrLfJoin(lines), lines);
  }

  // ---------------------------------------------------------------- single lines

  /** The thirteen schemes. */
  lemma SupportedExactly(line: string)
    ensures IsSupportedUri(line) <==>
      || StartsWith(line, "ss://") || StartsWith(line, "ssr://") || StartsWith(line, "vmess://") || StartsWith(line, "vless://")
      || StartsWith(line, "trojan://") || StartsWith(line, "hysteria2://") || StartsWith(line, "tuic://")
      || StartsWith(line, "anytls://") || StartsWith(line, "wireguard://") || StartsWith(line, "socks5://")
      || StartsWith(line, "socks5+tls://") || StartsWith(line, "http://") || StartsWith(line, "https://")
  {
    hide StartsWith;
    assert SCHEMES[0] == "ss://" && SCHEMES[1] == "ssr://" && SCHEMES[2] == "vmess://" && SCHEMES[3] == "vless://";
    assert SCHEMES[4] == "trojan://" && SCHEMES[5] == "hysteria2://" && SCHEMES[6] == "tuic://" && SCHEMES[7] == "anytls://";
    assert SCHEMES[8] == "wireguard://" && SCHEMES[9] == "socks5://" && SCHEMES[10] == "socks5+tls://";
    assert SCHEMES[11] == "http://" && SCHEMES[12] == "https://" && |SCHEMES| == 13;
  }

  lemma NoUriNoNode(ext: Externals, raw: string)
    ensures var line := Trim(raw);
      LineNodes(ext, raw) == if IsSupportedUri(line) then NodeList(ParseLine(ext, line)) else []
  {
    var line := Trim(raw);
    hide Trim, ParseSs, ParseSsr;
    if IsSupportedUri(line) {
      var i :| 0 <= i < |SCHEMES| && StartsWith(line, SCHEMES[i]);
      assert SCHEMES[i][0] != '#' && line[0] == SCHEMES[i][0];
    } else {
      assert SCHEMES[0] == "ss://" && SCHEMES[1] == "ssr://";
    }
  }

  lemma DispatchExactly(ext: Externals, line: string)
    ensures StartsWith(line, "ss://") ==> ParseLine(ext, line) == ParseSs(line)
    ensures StartsWith(line, "ssr://") ==> ParseLine(ext, line) == ParseSsr(line)
    ensures IsSupportedUri(line) && !StartsWith(line, "ss://") && !StartsWith(line, "ssr://") ==> ParseLine(ext, line) == ext.parseOther(line)
  {
    if StartsWith(line, "ssr://") {
      NotBothSchemes(line);
    }
    hide StartsWith, IsSupportedUri, ParseSs, ParseSsr;
  }

  /** A line yields its node if its scheme's parser accepts the trimmed line, and nothing otherwise. */
  lemma LineExactly(ext: Externals, raw: string)
    ensures var line := Trim(raw);
      && (StartsWith(line, "ss://") ==> LineNodes(ext, raw) == NodeList(ParseSs(line)))
      && (StartsWith(line, "ssr://") ==> LineNodes(ext, raw) == NodeList(ParseSsr(line)))
      && (IsSupportedUri(line) && !StartsWith(line, "ss://") && !StartsWith(line, "ssr://") ==>
            LineNodes(ext, raw) == NodeList(ext.parseOther(line)))
      && (!IsSupportedUri(line) ==> LineNodes(ext, raw) == [])
  {
    hide *;
    NoUriNoNode(ext, raw);
    SupportedExactly(Trim(raw));
    DispatchExactly(ext, Trim(raw));
  }

  function NodeList(node: Option<ProxyNode>): seq<ProxyNode> {
    if node.Some? then [node.value] else []
  }

  // ---------------------------------------------------------------- base64 and other formats

  /** ASCII white space is dropped, and nothing else. */
  lemma {:induction false} CompactExactly(a: string, c: char, b: string)
    ensures Compact(a + [c] + b) == Compact(a) + (if c in " \t\n\r\U{0C}" then "" else [c]) + Compact(b)
    decreases |a|
  {
    var s := a + [c] + b;
    if a == "" {
      assert s[1..] == b;
    } else {
      assert s[1..] == a[1..] + [c] + b;
      CompactExactly(a[1..], c, b);
    }
  }

  lemma DecodedPayload(ext: Externals, payload: string, e: Base64.Engine, text: string)
    requires IsUtf8(text) && Compact(Trim(payload)) == Base64.Encode(e, text)
    requires Trim(payload) != "" && !LooksLikeUriList(Trim(payload))
    ensures Normalize(ext, payload) == if LooksLikeUriList(Trim(text)) || ext.looksNonUri(Trim(text)) then Trim(text) else Trim(payload)
  {
    Base64.TryDecodeEncoded(e, text);
    hide LooksLikeUriList, Trim, Compact, Base64.TryDecodeText, Base64.Encode, IsUtf8;
  }

  /** A base64 payload in any of the four variants, with white space anywhere in it, parses as the lines of the text inside. */
  lemma EncodedListParses(ext: Externals, payload: string, e: Base64.Engine, text: string)
    requires IsUtf8(text) && Compact(Trim(payload)) == Base64.Encode(e, text)
    requires Trim(payload) != "" && !LooksLikeUriList(Trim(payload)) && LooksLikeUriList(Trim(text))
    ensures ParsePayload(ext, payload) == Some(LinesNodes(ext, Lines(Trim(text))))
  {
    DecodedPayload(ext, payload, e, text);
    hide *;
    ParseAfterNormalize(ext, payload);
  }

  /** Any other text inside goes, trimmed, to the other formats if it looks like one of them, and else the payload itself does. */
  lemma EncodedOtherParses(ext: Externals, payload: string, e: Base64.Engine, text: string)
    requires IsUtf8(text) && Compact(Trim(payload)) == Base64.Encode(e, text)
    requires Trim(payload) != "" && !LooksLikeUriList(Trim(payload)) && !LooksLikeUriList(Trim(text))
    ensures var other := if ext.looksNonUri(Trim(text)) then Trim(text) else Trim(payload);
      ParsePayload(ext, payload) == if other == "" then Some([]) else ext.parseNonUri(other)
  {
    DecodedPayload(ext, payload, e, text);
    hide *;
    ParseAfterNormalize(ext, payload);
    OtherFormats(ext, text);
    OtherFormats(ext, payload);
  }

  lemma OtherFormats(ext: Externals, text: string)
    ensures ParseNonUri(ext, Trim(text)) == if Trim(text) == "" then Some([]) else ext.parseNonUri(Trim(text))
  {
    Utf8.TrimIdempotent(text);
    hide Trim;
  }

  /** A payload that is neither a list nor base64 in any variant goes, trimmed, to the other formats; a blank one has no nodes. */
  lemma OtherPayloadParses(ext: Externals, payload: string)
    requires !LooksLikeUriList(Trim(payload))
    requires forall e: Base64.Engine, text: string :: IsUtf8(text) ==> Compact(Trim(payload)) != Base64.Encode(e, text)
    ensures ParsePayload(ext, payload) == if Trim(payload) == "" then Some([]) else ext.parseNonUri(Trim(payload))
  {
    OtherFormats(ext, payload);
    if Base64.TryDecodeText(Compact(Trim(payload))).Some? {
      var e := Base64.TryDecodeSound(Compact(Trim(payload)), Base64.TryDecodeText(Compact(Trim(payload))).value);
    }
    NothingIsNoList();
    assert Trim("") == "";
    hide LooksLikeUriList, Trim, Compact, Base64.TryDecodeText, Base64.Encode, IsUtf8;
  }

  lemma ParseAfterNormalize(ext: Externals, payload: string)
    ensures var normalized := Normalize(ext, payload);
      ParsePayload(ext, payload) == if LooksLikeUriList(normalized) then Some(LinesNodes(ext, Lines(normalized))) else ParseNonUri(ext, normalized)
  {
    hide Normalize, LooksLikeUriList, LinesNodes, Lines, ParseNonUri;
  }

  // ---------------------------------------------------------------- a byte order mark

  /** A mark in front is overlooked when a payload is classified, but its line is then no link any more. */
  lemma MarkedLine(ext: Externals, line: string)
    requires WellShaped(line)
    ensures IsUriLine(BYTE_ORDER_MARK + line) && LineNodes(ext, BYTE_ORDER_MARK + line) == []
  {
    MarkedIsTrimmed(line);
    WellShapedIsUri(line);
    WellShapedIsTrimmed(line);
    var marked := BYTE_ORDER_MARK + line;
    assert marked[..3] == BYTE_ORDER_MARK && marked[3..] == line;
    assert DropByteOrderMarks(marked) == DropByteOrderMarks(line);
    MarkedIsNoUri(line);
    LineExactly(ext, marked);
    hide Trim, LineNodes, IsSupportedUri, DropByteOrderMarks;
  }

  lemma MarkedIsTrimmed(line: string)
    requires line != "" && IsPlainAscii(line[|line| - 1])
    ensures Trim(BYTE_ORDER_MARK + line) == BYTE_ORDER_MARK + line
  {
    var marked := BYTE_ORDER_MARK + line;
    assert WhitePrefix(marked) == 0 by {
      assert marked[0] as int == 0xEF;
    }
    assert WhiteSuffix(marked) == 0;
  }

  lemma MarkedIsNoUri(line: string)
    ensures !IsSupportedUri(BYTE_ORDER_MARK + line)
  {
    var marked := BYTE_ORDER_MARK + line;
    assert marked[0] as int == 0xEF;
    forall i | 0 <= i < |SCHEMES| ensures !StartsWith(marked, SCHEMES[i]) {
      assert SCHEMES[i][0] as int < 0x80;
    }
  }

  /** A plain list behind a byte order mark loses its first link. */
  lemma MarkLosesFirstLine(ext: Externals, lines: seq<string>)
    requires lines != [] && forall l :: l in lines ==> WellShaped(l)
    ensures ParsePayload(ext, BYTE_ORDER_MARK + Join(lines, '\n')) == Some(LinesNodes(ext, lines[1..]))
  {
    hide WellShaped, LinesNodes, LineNodes, Lines, Trim, IsUriLine, Join;
    var payload := BYTE_ORDER_MARK + Join(lines, '\n');
    JoinedEnds(lines);
    MarkedIsTrimmed(Join(lines, '\n'));
    MarkedLine(ext, lines[0]);
    MarkedLines(lines);
    assert IsUriLine(Lines(payload)[0]);
    assert LooksLikeUriList(payload);
    PlainListParses(ext, payload);
    MarkedNodes(ext, lines);
  }

  lemma MarkedJoin(lines: seq<string>)
    requires lines != []
    ensures Join([BYTE_ORDER_MARK + lines[0]] + lines[1..], '\n') == BYTE_ORDER_MARK + Join(lines, '\n')
  {
    var marked := [BYTE_ORDER_MARK + lines[0]] + lines[1..];
    assert marked[1..] == lines[1..];
    if |lines| > 1 {
      var rest := ['\n'] + Join(lines[1..], '\n');
      assert (BYTE_ORDER_MARK + lines[0]) + rest == BYTE_ORDER_MARK + (lines[0] + rest);
      assert lines[0] + ['\n'] + Join(lines[1..], '\n') == lines[0] + rest;
      assert BYTE_ORDER_MARK + lines[0] + ['\n'] + Join(lines[1..], '\n') == (BYTE_ORDER_MARK + lines[0]) + rest;
    }
  }

  lemma MarkedLines(lines: seq<string>)
    requires lines != [] && forall l :: l in lines ==> WellShaped(l)
    ensures Lines(BYTE_ORDER_MARK + Join(lines, '\n')) == [BYTE_ORDER_MARK + lines[0]] + lines[1..]
  {
    hide *;
    var marked := [BYTE_ORDER_MARK + lines[0]] + lines[1..];
    forall i | 0 <= i < |lines| ensures DropCarriageReturn(marked[i]) == marked[i] && marked[i] != "" && '\n' !in marked[i] {
      assert lines[i] in lines;
      WellShapedKeepsEnd(lines[i]);
      if i == 0 {
        MarkedKeepsEnd(lines[0]);
      }
    }
    MarkedJoin(lines);
    SplitJoin(marked, '\n');
    LinesOfPieces(Join(marked, '\n'), marked);
  }

  lemma MarkedKeepsEnd(line: string)
    requires WellShaped(line)
    ensures DropCarriageReturn(BYTE_ORDER_MARK + line) == BYTE_ORDER_MARK + line && '\n' !in BYTE_ORDER_MARK + line
  {
    var marked := BYTE_ORDER_MARK + line;
    assert marked[|marked| - 1..][0] == line[|line| - 1];
  }

  lemma MarkedNodes(ext: Externals, lines: seq<string>)
    requires lines != [] && LineNodes(ext, BYTE_ORDER_MARK + lines[0]) == []
    ensures LinesNodes(ext, [BYTE_ORDER_MARK + lines[0]] + lines[1..]) == LinesNodes(ext, lines[1..])
  {
    hide LineNodes;
    assert ([BYTE_ORDER_MARK + lines[0]] + lines[1..])[1..] == lines[1..];
  }
}
