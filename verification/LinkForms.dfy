/** The links that the parsers accept beside the printer's: older ss:// forms, missing fragments and queries, raw parameters. */
module LinkForms {
  import opened Text
  import opened ShareLinks
  import opened UriParser
  import opened LinkRoundTrip
  import opened Utf8
  import Base64
  import Percent

  // ---------------------------------------------------------------- ss://

  /** Everything of a link behind its authority: a query, which is dropped, and a fragment. */
  function Tail(query: Option<string>, fragment: Option<string>): string {
    (if query.Some? then "?" + query.value else "") + (if fragment.Some? then "#" + fragment.value else "")
  }

  /** What credential, host part and fragment make, whatever form the link had. */
  function SsParts(credential: string, hostPart: string, fragment: Option<string>): Option<ProxyNode> {
    match (SplitOnce(credential, ":"), ParseHostPort(hostPart))
    case (Some((cipher, password)), Some((server, port))) =>
      var name := if fragment.Some? then Percent.DecodeComponent(fragment.value) else "ss-" + server + ":" + Decimal(port);
      Some(ProxyNode(name, Ss, server, port, map["cipher" := Str(cipher), "password" := Str(password)]))
    case _ => None
  }

  lemma TailSplits(authority: string, query: Option<string>, fragment: Option<string>)
    requires '#' !in authority && '?' !in authority && (query.Some? ==> '#' !in query.value)
    ensures var (body, name) := SplitFragment(authority + Tail(query, fragment));
      && name == (if fragment.Some? then Some(Percent.DecodeComponent(fragment.value)) else None)
      && Split(body, '?')[0] == authority
  {
    hide SplitOnce, Split, Percent.DecodeComponent;
    var body := authority + (if query.Some? then "?" + query.value else "");
    if fragment.Some? {
      assert authority + Tail(query, fragment) == body + ['#'] + fragment.value;
      SplitOnceChar(body, '#', fragment.value);
    } else {
      assert authority + Tail(query, fragment) == body;
      SplitOnceNone(body, '#');
    }
    if query.Some? {
      assert body == authority + ['?'] + query.value;
      SplitFirst(authority, '?', query.value);
    } else {
      assert body == authority;
      SplitSingle(authority, '?');
    }
  }

  lemma PartsParse(authority: string, query: Option<string>, fragment: Option<string>, credentialPart: string, hostPart: string)
    requires '#' !in authority && '?' !in authority && (query.Some? ==> '#' !in query.value)
    requires SplitSsAuthority(authority) == Some((credentialPart, hostPart))
    ensures var line := "ss://" + (authority + Tail(query, fragment));
      StartsWith(line, "ss://") && ParseSs(line) == SsParts(Base64.TryDecodeText(credentialPart).GetOr(credentialPart), hostPart, fragment)
  {
    TailSplits(authority, query, fragment);
    var raw := authority + Tail(query, fragment);
    assert ("ss://" + raw)[..|"ss://"|] == "ss://" && ("ss://" + raw)[|"ss://"|..] == raw;
    hide SplitFragment, SplitSsAuthority, Split, SplitOnce, ParseHostPort, Decimal, Percent.DecodeComponent, Base64.TryDecodeText, Tail;
  }

  /** A credential in any base64 variant, with or without a query and a fragment; a missing fragment gives the default name. */
  lemma EncodedCredential(e: Base64.Engine, credential: string, hostPart: string, query: Option<string>, fragment: Option<string>)
    requires IsUtf8(credential) && (query.Some? ==> '#' !in query.value)
    requires '@' !in hostPart && '#' !in hostPart && '?' !in hostPart
    ensures var line := "ss://" + (Base64.Encode(e, credential) + "@" + hostPart + Tail(query, fragment));
      StartsWith(line, "ss://") && ParseSs(line) == SsParts(credential, hostPart, fragment)
  {
    var encoded := Base64.Encode(e, credential);
    EncodedHasNoDelimiter(e, credential);
    Base64.TryDecodeEncoded(e, credential);
    hide IsUtf8, Base64.Encode, Base64.TryDecodeText, RSplitOnce, SsParts, Tail, ParseSs, StartsWith;
    var authority := encoded + "@" + hostPart;
    assert authority == encoded + ['@'] + hostPart;
    RSplitOnceAt(encoded, '@', hostPart);
    PartsParse(authority, query, fragment, encoded, hostPart);
  }

  lemma EncodedHasNoDelimiter(e: Base64.Engine, text: string)
    requires AllBytes(text)
    ensures '@' !in Base64.Encode(e, text) && '#' !in Base64.Encode(e, text) && '?' !in Base64.Encode(e, text) && ':' !in Base64.Encode(e, text)
  {
    forall c | c in Base64.Encode(e, text) ensures c !in ":#?@&%[]" {
      Base64.EncodedAlphabet(e, text, c);
    }
    hide Base64.Encode;
    assert '@' in ":#?@&%[]" && '#' in ":#?@&%[]" && '?' in ":#?@&%[]" && ':' in ":#?@&%[]";
  }

  /** The older form: credential and host inside one base64 text, in any variant. */
  lemma WholeEncoded(e: Base64.Engine, credential: string, hostPart: string, query: Option<string>, fragment: Option<string>)
    requires IsUtf8(credential + "@" + hostPart) && '@' !in hostPart && (query.Some? ==> '#' !in query.value)
    requires Base64.TryDecodeText(credential) == None
    ensures var line := "ss://" + (Base64.Encode(e, credential + "@" + hostPart) + Tail(query, fragment));
      StartsWith(line, "ss://") && ParseSs(line) == SsParts(credential, hostPart, fragment)
  {
    var text := credential + "@" + hostPart;
    EncodedHasNoDelimiter(e, text);
    Base64.TryDecodeEncoded(e, text);
    hide IsUtf8, Base64.Encode, Base64.TryDecodeText, RSplitOnce, SsParts, Tail, ParseSs, StartsWith;
    assert text == credential + ['@'] + hostPart;
    RSplitOnceAt(credential, '@', hostPart);
    assert RSplitOnce(Base64.Encode(e, text), '@') == None;
    PartsParse(Base64.Encode(e, text), query, fragment, credential, hostPart);
  }

  /** A text with a colon is no base64 text, in no variant. */
  lemma ColonIsNoBase64(text: string)
    requires ':' in text
    ensures Base64.TryDecodeText(text) == None
  {
    if Base64.TryDecodeText(text).Some? {
      var decoded := Base64.TryDecodeText(text).value;
      var e := Base64.TryDecodeSound(text, decoded);
      EncodedHasNoDelimiter(e, decoded);
      assert false;
    }
  }

  /** A credential that is not encoded is taken as it stands. */
  lemma PlainCredential(credential: string, hostPart: string, query: Option<string>, fragment: Option<string>)
    requires ':' in credential && '#' !in credential && '?' !in credential && (query.Some? ==> '#' !in query.value)
    requires '@' !in hostPart && '#' !in hostPart && '?' !in hostPart
    ensures var line := "ss://" + (credential + "@" + hostPart + Tail(query, fragment));
      StartsWith(line, "ss://") && ParseSs(line) == SsParts(credential, hostPart, fragment)
  {
    ColonIsNoBase64(credential);
    hide Base64.TryDecodeText, RSplitOnce, SsParts, Tail, ParseSs, StartsWith;
    var authority := credential + "@" + hostPart;
    assert authority == credential + ['@'] + hostPart;
    RSplitOnceAt(credential, '@', hostPart);
    PartsParse(authority, query, fragment, credential, hostPart);
  }

  /** Without a '@', in the link or in the text it encodes, there is no node. */
  lemma NoHostNoNode(authority: string, query: Option<string>, fragment: Option<string>)
    requires '@' !in authority && '#' !in authority && '?' !in authority && (query.Some? ==> '#' !in query.value)
    requires forall e: Base64.Engine, text: string :: IsUtf8(text) && '@' in text ==> authority != Base64.Encode(e, text)
    ensures var line := "ss://" + (authority + Tail(query, fragment)); StartsWith(line, "ss://") && ParseSs(line) == None
  {
    TailSplits(authority, query, fragment);
    var raw := authority + Tail(query, fragment);
    assert ("ss://" + raw)[..|"ss://"|] == "ss://" && ("ss://" + raw)[|"ss://"|..] == raw;
    NoAuthority(authority);
    hide SplitFragment, SplitSsAuthority, Split, SplitOnce, ParseHostPort, Base64.TryDecodeText, Tail;
  }

  lemma NoAuthority(authority: string)
    requires '@' !in authority
    requires forall e: Base64.Engine, text: string :: IsUtf8(text) && '@' in text ==> authority != Base64.Encode(e, text)
    ensures SplitSsAuthority(authority) == None
  {
    hide IsUtf8, Base64.Encode, Base64.TryDecodeText;
    if Base64.TryDecodeText(authority).Some? {
      var e := Base64.TryDecodeSound(authority, Base64.TryDecodeText(authority).value);
    }
  }

  // ---------------------------------------------------------------- ssr://

  /** Without a "/?" the whole text is the head: the default name, and no parameters. */
  lemma HeadOnly(decoded: string)
    requires forall i: nat :: !OccursAt(decoded, "/?", i)
    ensures ParseSsrText(decoded) ==
      match ParseSsrHead(Split(decoded, ':'))
      case None => None
      case Some((server, port, base)) => Some(ProxyNode(base.name, Ssr, server, port, base.extra))
  {
    hide Split, ParseSsrHead, OccursAt;
    assert SplitOnce(decoded, "/?") == None;
  }

  /** Six segments make a head whose name is the default one; further segments are ignored, and each of the six is needed. */
  lemma HeadExactly(segments: seq<string>)
    ensures ParseSsrHead(segments).Some? <==>
      && |segments| >= 6
      && (forall i :: i in [0, 2, 3, 4, 5] ==> segments[i] != "")
      && ParseU16(segments[1]).Some?
      && Base64.TryDecodeText(segments[5]).Some?
    ensures ParseSsrHead(segments).Some? ==>
      var (server, port, base) := ParseSsrHead(segments).value;
      && server == segments[0] && ParseU16(segments[1]) == Some(port)
      && base.name == "ssr-" + server + ":" + Decimal(port)
      && base.extra == map["protocol" := Str(segments[2]), "cipher" := Str(segments[3]), "obfs" := Str(segments[4]),
                           "password" := Str(Base64.TryDecodeText(segments[5]).value)]
  {
    hide ParseU16, Base64.TryDecodeText, Decimal;
    if |segments| >= 6 {
      assert (forall i :: i in [0, 2, 3, 4, 5] ==> segments[i] != "") <==>
        segments[0] != "" && segments[2] != "" && segments[3] != "" && segments[4] != "" && segments[5] != "" by {
        assert 0 in [0, 2, 3, 4, 5] && 2 in [0, 2, 3, 4, 5] && 3 in [0, 2, 3, 4, 5] && 4 in [0, 2, 3, 4, 5] && 5 in [0, 2, 3, 4, 5];
      }
    }
  }

  /** A parameter that is not base64 text is percent-decoded as it stands. */
  lemma RawParameter(raw: string)
    requires raw != "" && Base64.TryDecodeText(raw) == None
    ensures SsrParamValue(raw) == Some(Percent.DecodeComponent(raw))
  {
    Percent.DecodeNonEmpty(raw);
    hide Percent.DecodeComponent, Base64.TryDecodeText;
  }

  /** Pairs without '=', with an unknown key, or with an empty value change nothing. */
  lemma IgnoredPairs(settings: SsrSettings, pair: string, key: string, value: string)
    requires '=' !in key
    ensures '=' !in pair ==> ApplySsrPair(settings, pair) == settings
    ensures key != "remarks" && key != "obfsparam" && key != "protoparam" ==> ApplySsrPair(settings, key + "=" + value) == settings
    ensures ApplySsrPair(settings, key + "=") == settings
  {
    if '=' !in pair {
      SplitOnceNone(pair, '=');
    }
    EmptyParameter();
    assert key + "=" + value == key + ['='] + value && key + "=" == key + ['='] + "";
    SplitOnceChar(key, '=', value);
    SplitOnceChar(key, '=', "");
    hide SplitOnce, SsrParamValue;
  }

  lemma EmptyParameter()
    ensures SsrParamValue("") == None
  {
    Percent.DecodeNonEmpty("");
    hide Percent.DecodeComponent;
    if Base64.TryDecodeText("").Some? {
      Base64.TryDecodeEncoded(Base64.STANDARD, "");
      assert Base64.Encode(Base64.STANDARD, "") == "" && IsUtf8("");
    }
  }

  // ---------------------------------------------------------------- optional fields of a printed node

  /** An optional field is there exactly as a text that is not all white, and then without the white space around it. */
  lemma OptionalStringExactly(node: ProxyNode, field: string) returns (before: string, after: string)
    ensures OptionalString(node, field).Some? <==> field in node.extra && node.extra[field].Str? && !AllWhite(node.extra[field].text)
    ensures OptionalString(node, field).Some? ==>
      && node.extra[field].text == before + OptionalString(node, field).value + after
      && AllWhite(before) && AllWhite(after)
      && WhitePrefix(OptionalString(node, field).value) == 0 && WhiteSuffix(OptionalString(node, field).value) == 0
  {
    hide AllWhite, Trim;
    before, after := "", "";
    if field in node.extra && node.extra[field].Str? {
      BlankExactly(node.extra[field].text);
      before, after := TrimExactly(node.extra[field].text);
    }
  }

  /** An SS or SSR node is not printed exactly when its cipher or password is missing; the cipher is asked for first. */
  lemma PrintErrorExactly(other: OtherPrinter, node: ProxyNode)
    requires IsRustNode(node) && (node.protocol == Ss || node.protocol == Ssr)
    ensures ShareUri(other, node) == Err(MissingField(node.name, "cipher")) <==> OptionalString(node, "cipher").None?
    ensures ShareUri(other, node) == Err(MissingField(node.name, "password")) <==>
      OptionalString(node, "cipher").Some? && OptionalString(node, "password").None?
    ensures ShareUri(other, node).Ok? <==> OptionalString(node, "cipher").Some? && OptionalString(node, "password").Some?
  {
    hide OptionalString, SsLine, SsrPlain, SsrLine, EncodeUrl, IsUtf8;
  }

  /** The first node that cannot be printed decides the error of the whole list. */
  lemma {:induction false} FirstErrorDecides(other: OtherPrinter, nodes: seq<ProxyNode>, i: nat)
    requires AllRustNodes(nodes) && i < |nodes| && ShareUri(other, nodes[i]).Err?
    requires forall j :: 0 <= j < i ==> ShareUri(other, nodes[j]).Ok?
    ensures ShareUris(other, nodes) == Err(ShareUri(other, nodes[i]).error)
    decreases i
  {
    hide ShareUri, IsRustNode;
    if i > 0 {
      assert forall j :: 0 <= j < |nodes| - 1 ==> nodes[1..][j] == nodes[j + 1];
      FirstErrorDecides(other, nodes[1..], i - 1);
    }
  }

  /** What an SSR node reads back as: its fields trimmed, protocol "origin" and obfs "plain" where they are missing. */
  lemma CanonicalFields(node: ProxyNode)
    requires IsRustNode(node) && SsrUri(node).Ok?
    ensures var (read, text) := (CanonicalSsr(node), (f: string) => OptionalString(node, f));
      && (read.name, read.protocol, read.server, read.port) == (node.name, Ssr, node.server, node.port)
      && "cipher" in read.extra && text("cipher").Some? && read.extra["cipher"] == Str(text("cipher").value)
      && "password" in read.extra && text("password").Some? && read.extra["password"] == Str(text("password").value)
      && "protocol" in read.extra && read.extra["protocol"] == Str(if text("protocol").Some? then text("protocol").value else "origin")
      && "obfs" in read.extra && read.extra["obfs"] == Str(if text("obfs").Some? then text("obfs").value else "plain")
      && ("obfs_param" in read.extra <==> text("obfs_param").Some?)
      && ("obfs_param" in read.extra ==> read.extra["obfs_param"] == Str(text("obfs_param").value))
      && ("protocol_param" in read.extra <==> text("protocol_param").Some?)
      && ("protocol_param" in read.extra ==> read.extra["protocol_param"] == Str(text("protocol_param").value))
  {
    hide OptionalString, SsrPlain, SsrLine, EncodeUrl, IsUtf8;
  }

  // ---------------------------------------------------------------- hosts and ports

  predicate AllZeros(zeros: string) {
    forall c :: c in zeros ==> c == '0'
  }

  lemma {:induction false} LeadingZero(s: string)
    ensures DigitsValue(['0'] + s) == DigitsValue(s)
    decreases |s|
  {
    var t := ['0'] + s;
    if s == "" {
      assert t[..0] == "";
    } else {
      LeadingZero(s[..|s| - 1]);
      assert t[..|t| - 1] == ['0'] + s[..|s| - 1] && t[|t| - 1] == s[|s| - 1];
    }
  }

  lemma {:induction false} LeadingZeros(zeros: string, s: string)
    requires AllZeros(zeros)
    ensures DigitsValue(zeros + s) == DigitsValue(s)
    decreases |zeros|
  {
    if zeros == "" {
      assert zeros + s == s;
    } else {
      assert zeros[0] in zeros && forall c :: c in zeros[1..] ==> c in zeros;
      LeadingZeros(zeros[1..], s);
      LeadingZero(zeros[1..] + s);
      assert zeros + s == ['0'] + (zeros[1..] + s);
    }
  }

  lemma DecimalStep(n: nat, d: nat)
    requires d < 10
    ensures Decimal(n * 10 + d) == if n == 0 then [Digit(d)] else Decimal(n) + [Digit(d)]
  {
  }

  lemma {:induction false} ValuedDigits(s: string, n: nat) returns (zeros: string)
    requires s != "" && DigitsValue(s) == Some(n)
    ensures AllZeros(zeros) && s == zeros + Decimal(n)
    decreases |s|
  {
    hide Decimal;
    var (init, last) := (s[..|s| - 1], s[|s| - 1]);
    var (v, d) := (DigitsValue(init).value, last as int - '0' as int);
    DecimalStep(v, d);
    assert Digit(d) == last && s == init + [last];
    if init == "" {
      zeros := "";
    } else {
      zeros := ValuedDigits(init, v);
      if v == 0 {
        DecimalStep(0, 0);
        zeros := zeros + ['0'];
      } else {
        assert zeros + Decimal(v) + [last] == zeros + (Decimal(v) + [last]);
      }
    }
  }

  /** A port is an optional plus sign, any zeros, and the decimal of a 16-bit number; nothing else is. */
  lemma PortExactly(s: string, n: nat)
    ensures ParseU16(s) == Some(n) <==>
      n < 65536 && exists zeros :: AllZeros(zeros) && (s == zeros + Decimal(n) || s == "+" + (zeros + Decimal(n)))
  {
    hide Decimal, DigitsValue;
    if ParseU16(s) == Some(n) {
      var digits := if StartsWith(s, "+") then s[1..] else s;
      var zeros := ValuedDigits(digits, n);
      assert StartsWith(s, "+") ==> s == "+" + digits;
    }
    if zeros :| n < 65536 && AllZeros(zeros) && (s == zeros + Decimal(n) || s == "+" + (zeros + Decimal(n))) {
      var digits := zeros + Decimal(n);
      LeadingZeros(zeros, Decimal(n));
      DecimalValue(n);
      assert digits[0] != '+' by {
        assert zeros != "" ==> zeros[0] in zeros;
        assert digits[0] == if zeros == "" then Decimal(n)[0] else zeros[0];
      }
      if s == digits {
        assert s[..1][0] != '+';
      } else {
        assert s[1..] == digits && s[..1] == "+";
      }
    }
  }

  /** What has no closing bracket, no colon behind it, or no colon at all is no host and port. */
  lemma NoHostPort(text: string, host: string)
    requires ']' !in host
    ensures ParseHostPort("[" + host) == None
    ensures !StartsWith(text, ":") ==> ParseHostPort("[" + host + "]" + text) == None
    ensures ':' !in text && !StartsWith(text, "[") ==> ParseHostPort(text) == None
  {
    var (open, whole) := ("[" + host, "[" + host + "]" + text);
    assert open[1..] == host && whole[1..] == host + "]" + text;
    assert StartsWith(open, "[") && StartsWith(whole, "[");
    SplitOnceChar(host, ']', text);
    NoSplitOnce(host);
    if ':' !in text {
      NoRSplitOnce(text);
    }
    hide SplitOnce, RSplitOnce, ParseU16;
  }

  lemma NoSplitOnce(host: string)
    requires ']' !in host
    ensures SplitOnce(host, "]") == None
  {
  }

  lemma NoRSplitOnce(text: string)
    requires ':' !in text
    ensures RSplitOnce(text, ':') == None
  {
  }

  /** A host that is already in brackets is printed as it is, and reads back without them. */
  lemma BracketedHostReadsBack(host: string, port: nat)
    requires ']' !in host && port < 65536
    ensures FormatHost("[" + host + "]") == "[" + host + "]"
    ensures ParseHostPort(FormatHost("[" + host + "]") + ":" + Decimal(port)) == Some((host, port))
  {
    var whole := "[" + host + "]";
    assert whole[..1] == "[" && whole[|whole| - 1..] == "]";
    BracketedHostPort(host, Decimal(port));
    ParseDecimal(port);
    hide ParseHostPort, Decimal;
  }
}
