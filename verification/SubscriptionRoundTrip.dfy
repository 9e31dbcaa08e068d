/** The whole base64 subscription: printing a list of nodes and parsing the payload back. */
module SubscriptionRoundTrip {
  import opened Text
  import opened ShareLinks
  import opened UriParser
  import opened LinkRoundTrip
  import Base64
  import Percent

  // ---------------------------------------------------------------- lines

  /** A line that line splitting and trimming leave alone and that the parser takes for a link. */
  predicate WellShaped(line: string) {
    && line != "" && line[0] == 's' && IsPlainAscii(line[|line| - 1])
    && '\n' !in line
    && (StartsWith(line, "ss://") || StartsWith(line, "ssr://"))
  }

  lemma WellShapedIsTrimmed(line: string)
    requires WellShaped(line)
    ensures Trim(line) == line
  {
    TrimVisible(line);
  }

  lemma WellShapedIsUri(line: string)
    requires WellShaped(line)
    ensures IsUriLine(line)
  {
    WellShapedIsTrimmed(line);
    assert BYTE_ORDER_MARK[0] != 's';
    assert DropByteOrderMarks(line) == line;
    assert StartsWith(line, SCHEMES[0]) || StartsWith(line, SCHEMES[1]);
  }

  lemma WellShapedKeepsEnd(line: string)
    requires WellShaped(line)
    ensures DropCarriageReturn(line) == line && line != "" && '\n' !in line
  {
    assert line[|line| - 1..][0] != '\r';
  }

  lemma LinesOfJoined(lines: seq<string>)
    requires lines != [] && forall l :: l in lines ==> WellShaped(l)
    ensures Lines(Join(lines, '\n')) == lines
  {
    hide WellShaped, Join, Split, DropCarriageReturn;
    forall i | 0 <= i < |lines| ensures DropCarriageReturn(lines[i]) == lines[i] && lines[i] != "" && '\n' !in lines[i] {
      WellShapedKeepsEnd(lines[i]);
    }
    SplitJoin(lines, '\n');
    assert lines == lines[..|lines| - 1] + [lines[|lines| - 1]];
    assert Lines(Join(lines, '\n')) == lines;
  }

  lemma {:induction false} JoinedEnds(lines: seq<string>)
    requires lines != [] && forall l :: l in lines ==> WellShaped(l)
    ensures var text := Join(lines, '\n');
            text != "" && text[0] == 's' && IsPlainAscii(text[|text| - 1])
    decreases |lines|
  {
    assert WellShaped(lines[0]);
    if |lines| > 1 {
      JoinedEnds(lines[1..]);
    }
  }

  lemma JoinedLooksLikeList(lines: seq<string>)
    requires lines != [] && forall l :: l in lines ==> WellShaped(l)
    ensures LooksLikeUriList(Join(lines, '\n'))
  {
    hide IsUriLine, WellShaped;
    LinesOfJoined(lines);
    WellShapedIsUri(lines[0]);
    assert IsUriLine(Lines(Join(lines, '\n'))[0]);
  }

  // ---------------------------------------------------------------- the encoded payload

  lemma {:induction false} CompactVisible(s: string)
    requires forall c :: c in s ==> IsPlainAscii(c)
    ensures Compact(s) == s
    decreases |s|
  {
    if s != "" {
      assert s[0] in s && forall c :: c in s[1..] ==> c in s;
      CompactVisible(s[1..]);
      assert s == [s[0]] + s[1..];
    }
  }

  lemma VisibleLines(s: string)
    requires s != "" && forall c :: c in s ==> IsPlainAscii(c)
    ensures Trim(s) == s && Lines(s) == [s]
  {
    TrimVisible(s);
    assert '\n' !in s;
    SplitSingle(s, '\n');
  }

  /** Base64 text holds no ':', so it cannot be taken for a list of links. */
  lemma EncodedIsNoUriList(s: string)
    requires s != "" && ':' !in s && forall c :: c in s ==> IsPlainAscii(c)
    ensures !LooksLikeUriList(s)
  {
    VisibleLines(s);
    assert s[0] in s && BYTE_ORDER_MARK[0] != s[0];
    assert DropByteOrderMarks(s) == s;
    forall i | 0 <= i < |SCHEMES| ensures !StartsWith(s, SCHEMES[i]) {
      var scheme := SCHEMES[i];
      SchemesHaveColon(i);
      assert |scheme| <= |s| ==> s[..|scheme|][|scheme| - 3] == s[|scheme| - 3];
    }
  }

  lemma SchemesHaveColon(i: nat)
    requires i < |SCHEMES|
    ensures |SCHEMES[i]| >= 3 && SCHEMES[i][|SCHEMES[i]| - 3] == ':'
  {
  }

  lemma PayloadNormalizes(ext: Externals, lines: seq<string>)
    requires lines != [] && forall l :: l in lines ==> WellShaped(l)
    requires IsUtf8(Join(lines, '\n'))
    ensures Normalize(ext, Base64.Encode(Base64.STANDARD, Join(lines, '\n'))) == Join(lines, '\n')
  {
    var text := Join(lines, '\n');
    var payload := Base64.Encode(Base64.STANDARD, text);
    JoinedEnds(lines);
    forall c | c in payload ensures IsPlainAscii(c) && c != ':' {
      Base64.EncodedAlphabet(Base64.STANDARD, text, c);
    }
    Base64.TryDecodeEncoded(Base64.STANDARD, text);
    TrimVisible(text);
    JoinedLooksLikeList(lines);
    hide IsUtf8, WellShaped, Join, Base64.Encode, LooksLikeUriList, Base64.TryDecodeText;
    assert payload != "" by {
      assert Base64.TryDecodeText("") == Some("") by {
        Base64.TryDecodeEncoded(Base64.STANDARD, "");
        EmptyEncodes();
      }
    }
    VisibleLines(payload);
    CompactVisible(payload);
    EncodedIsNoUriList(payload);
  }

  lemma EmptyEncodes()
    ensures IsUtf8("") && Base64.Encode(Base64.STANDARD, "") == ""
  {
  }

  /** Printed lines come back one by one, each by its own parser. */
  lemma PayloadLines(ext: Externals, lines: seq<string>)
    requires lines != [] && forall l :: l in lines ==> WellShaped(l)
    requires IsUtf8(Join(lines, '\n'))
    ensures ParsePayload(ext, Base64.Encode(Base64.STANDARD, Join(lines, '\n'))) == Some(LinesNodes(ext, lines))
  {
    hide IsUtf8, WellShaped, Join, Base64.Encode, LooksLikeUriList, Normalize, LinesNodes, Lines;
    PayloadNormalizes(ext, lines);
    JoinedLooksLikeList(lines);
    LinesOfJoined(lines);
  }

  // ---------------------------------------------------------------- lists of nodes

  /** What is asked of a printed node: Rust strings, the required fields, and no delimiter inside the host of an SS node. */
  predicate Printable(node: ProxyNode) {
    && IsRustNode(node)
    && match node.protocol
       case Ss => SsUri(node).Ok? && PlainHost(node.server)
       case Ssr => SsrUri(node).Ok?
       case OtherProtocol(_) => false
  }

  /** The condition, per protocol, under which the node's own link reads back. */
  predicate ReadsBack(node: ProxyNode)
    requires Printable(node)
  {
    match node.protocol
    case Ss => ':' !in OptionalString(node, "cipher").value
    case Ssr => NoHiddenQuery(node) && Segmented(node) && StableNames(node)
  }

  function Canonical(node: ProxyNode): ProxyNode
    requires Printable(node)
  {
    match node.protocol
    case Ss => CanonicalSs(node)
    case Ssr => CanonicalSsr(node)
  }

  function LinkOf(node: ProxyNode): string
    requires Printable(node)
  {
    match node.protocol
    case Ss => SsUri(node).value
    case Ssr => SsrUri(node).value
  }

  lemma SsLinkShape(node: ProxyNode)
    requires IsRustNode(node) && SsUri(node).Ok? && PlainHost(node.server)
    ensures WellShaped(SsUri(node).value)
  {
    hide IsUtf8, OptionalString, Percent.Encode, EncodeUrl, FormatHost;
    var (cipher, password) := (Field(node, "cipher").value, Field(node, "password").value);
    var (e, h, n) := (EncodeUrl(cipher + ":" + password), FormatHost(node.server), Percent.Encode(node.name));
    EncodeUrlHasNo(cipher + ":" + password, '\n');
    PlainHostHasNo(node.server, '\n');
    FormatHostHasNo(node.server, '\n');
    if n != "" {
      Percent.EncodedAlphabet(node.name, n[|n| - 1]);
    }
    if '\n' in n {
      Percent.EncodedAlphabet(node.name, '\n');
      assert false;
    }
    SsLineShape(e, h, Decimal(node.port), n);
  }

  lemma SsLineShape(e: string, h: string, d: string, n: string)
    requires '\n' !in e && '\n' !in h && '\n' !in d && '\n' !in n
    requires n != "" ==> IsPlainAscii(n[|n| - 1])
    ensures WellShaped(SsLine(e, h, d, n))
  {
    assert SsLine(e, h, d, n)[..|"ss://"|] == "ss://";
  }

  lemma SsrLinkShape(node: ProxyNode)
    requires IsRustNode(node) && SsrUri(node).Ok?
    ensures WellShaped(SsrUri(node).value)
  {
    hide IsUtf8, OptionalString, SsrPlain, Base64.Encode;
    var parts := PartsOf(node);
    var plain := SsrPlain(node, parts.cipher, parts.password);
    SsrPlainUtf8(node, parts.cipher, parts.password);
    var e := EncodeUrl(plain);
    EncodeUrlHasNo(plain, '\n');
    if e != "" {
      Base64.EncodedAlphabet(Base64.URL_SAFE_NO_PAD, plain, e[|e| - 1]);
    }
    assert SsrLine(e)[..|"ssr://"|] == "ssr://";
  }

  lemma LinkIsWellShaped(node: ProxyNode)
    requires Printable(node)
    ensures WellShaped(LinkOf(node))
  {
    hide WellShaped, SsUri, SsrUri, IsRustNode, PlainHost, NoHiddenQuery;
    match node.protocol
    case Ss => SsLinkShape(node);
    case Ssr => SsrLinkShape(node);
  }

  lemma LineNodesOf(ext: Externals, line: string)
    requires WellShaped(line)
    ensures LineNodes(ext, line) ==
      match ParseLine(ext, line)
      case None => []
      case Some(node) => [node]
  {
    hide ParseLine;
    WellShapedIsTrimmed(line);
  }

  lemma NotBothSchemes(line: string)
    requires StartsWith(line, "ssr://")
    ensures !StartsWith(line, "ss://")
  {
    assert line[..6][2] == 'r';
    assert line[..5][2] == line[2];
  }

  lemma LinkReadsBack(ext: Externals, node: ProxyNode)
    requires Printable(node)
    ensures |LineNodes(ext, LinkOf(node))| <= 1
    ensures LineNodes(ext, LinkOf(node)) == [Canonical(node)] <==> ReadsBack(node)
  {
    hide WellShaped, SsUri, SsrUri, IsRustNode, PlainHost, NoHiddenQuery, StartsWith, LineNodes, ParseSs, ParseSsr,
         CanonicalSs, CanonicalSsr, Segmented, StableNames, OptionalString;
    var link := LinkOf(node);
    LinkIsWellShaped(node);
    LineNodesOf(ext, link);
    match node.protocol
    case Ss =>
      SsRoundTrip(node);
      SsUriStart(node);
    case Ssr =>
      SsrRoundTrip(node);
      NotBothSchemes(link);
  }

  lemma SsUriStart(node: ProxyNode)
    requires IsRustNode(node) && SsUri(node).Ok?
    ensures StartsWith(SsUri(node).value, "ss://")
  {
    hide IsUtf8, OptionalString, Base64.Encode, Percent.Encode, FormatHost, Decimal, SsAuthority;
  }

  // ---------------------------------------------------------------- the end-to-end theorem

  predicate AllPrintable(nodes: seq<ProxyNode>)
    ensures AllPrintable(nodes) ==> AllRustNodes(nodes)
  {
    hide IsRustNode, SsUri, SsrUri, PlainHost, NoHiddenQuery;
    forall i :: 0 <= i < |nodes| ==> Printable(nodes[i])
  }

  predicate AllReadBack(nodes: seq<ProxyNode>)
    requires AllPrintable(nodes)
  {
    forall i :: 0 <= i < |nodes| ==> ReadsBack(nodes[i])
  }

  function Links(nodes: seq<ProxyNode>): seq<string>
    requires AllPrintable(nodes)
  {
    if nodes == [] then [] else [LinkOf(nodes[0])] + Links(nodes[1..])
  }

  /** The nodes as the printer reads them, in order. */
  function Canonicals(nodes: seq<ProxyNode>): seq<ProxyNode>
    requires AllPrintable(nodes)
  {
    if nodes == [] then [] else [Canonical(nodes[0])] + Canonicals(nodes[1..])
  }

  lemma {:induction false} LinksReadBack(ext: Externals, nodes: seq<ProxyNode>)
    requires AllPrintable(nodes)
    ensures |LinesNodes(ext, Links(nodes))| <= |nodes| == |Canonicals(nodes)|
    ensures LinesNodes(ext, Links(nodes)) == Canonicals(nodes) <==> AllReadBack(nodes)
    decreases |nodes|
  {
    hide Printable, ReadsBack, Canonical, LinkOf, LineNodes, AllRustNodes;
    if nodes != [] {
      var rest := nodes[1..];
      LinksReadBack(ext, rest);
      LinkReadsBack(ext, nodes[0]);
      assert Links(nodes)[1..] == Links(rest);
      var (first, others) := (LineNodes(ext, LinkOf(nodes[0])), LinesNodes(ext, Links(rest)));
      assert LinesNodes(ext, Links(nodes)) == first + others;
      if first + others == Canonicals(nodes) {
        assert |first| == 1;
        assert first == (first + others)[..1] && others == (first + others)[1..];
      }
      assert AllReadBack(nodes) <==> ReadsBack(nodes[0]) && AllReadBack(rest) by {
        assert forall i :: 0 <= i < |rest| ==> rest[i] == nodes[i + 1];
        if ReadsBack(nodes[0]) && AllReadBack(rest) {
          assert forall i :: 1 <= i < |nodes| ==> nodes[i] == rest[i - 1];
        }
      }
    }
  }

  lemma LinkIsPrinted(other: OtherPrinter, node: ProxyNode)
    requires Printable(node)
    ensures IsRustNode(node) && ShareUri(other, node) == Ok(LinkOf(node))
  {
    hide IsRustNode, SsUri, SsrUri, PlainHost, NoHiddenQuery;
  }

  /** Printing succeeds on printable nodes, and its lines are the nodes' links. */
  lemma {:induction false} PrintedLinks(other: OtherPrinter, nodes: seq<ProxyNode>)
    requires AllPrintable(nodes)
    ensures ShareUris(other, nodes) == Ok(Links(nodes))
    ensures forall i :: 0 <= i < |Links(nodes)| ==> WellShaped(Links(nodes)[i])
    decreases |nodes|
  {
    hide IsRustNode, Printable, LinkOf, WellShaped, ShareUri;
    if nodes != [] {
      PrintedLinks(other, nodes[1..]);
      LinkIsPrinted(other, nodes[0]);
      LinkIsWellShaped(nodes[0]);
    }
  }

  /**
   The end-to-end round trip: parsing the printed base64 subscription returns the same nodes in
   the same order exactly when every node's own link reads back. One SSR node with an IPv6
   host, say, makes the parsed list differ.
   */
  lemma SubscriptionRoundTrip(other: OtherPrinter, ext: Externals, nodes: seq<ProxyNode>)
    requires AllPrintable(nodes)
    ensures Subscription(other, nodes).Ok?
    ensures ParsePayload(ext, Subscription(other, nodes).value) == Some(Canonicals(nodes)) <==> AllReadBack(nodes)
  {
    hide AllPrintable, AllReadBack, AllRustNodes, WellShaped, ParsePayload, LinesNodes, Join, Base64.Encode, IsUtf8;
    PrintedLinks(other, nodes);
    LinksReadBack(ext, nodes);
    var links := Links(nodes);
    JoinUtf8(links, '\n');
    if nodes == [] {
      EmptyJoin();
      EmptyEncodes();
      EmptyPayload(ext);
    } else {
      PayloadLines(ext, links);
    }
  }

  lemma EmptyJoin()
    ensures Join([], '\n') == ""
  {
  }

  lemma EmptyPayload(ext: Externals)
    ensures ParsePayload(ext, "") == Some([])
  {
    SplitSingle("", '\n');
    assert Trim("") == "";
    assert Lines("") == [];
  }
}
