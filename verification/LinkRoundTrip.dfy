/** What one printed ss:// or ssr:// link parses back to, and exactly when that is the printed node. */
module LinkRoundTrip {
  import opened Text
  import opened ShareLinks
  import opened UriParser
  import Base64
  import Percent

  lemma EncodeUrlHasNo(s: string, c: char)
    requires AllBytes(s)
    requires c in ":#?@&%[]=/+\n\r"
    ensures c !in EncodeUrl(s)
  {
    if c in EncodeUrl(s) {
      Base64.EncodedAlphabet(Base64.URL_SAFE_NO_PAD, s, c);
      assert false;
    }
  }

  lemma EncodeUrlDecodes(s: string)
    requires IsUtf8(s)
    ensures Base64.TryDecodeText(EncodeUrl(s)) == Some(s)
  {
    Base64.TryDecodeEncoded(Base64.URL_SAFE_NO_PAD, s);
  }

  lemma SplitOnceFirstHasNo(s: string, c: char)
    ensures SplitOnce(s, [c]).Some? ==> c !in SplitOnce(s, [c]).value.0
  {
    if SplitOnce(s, [c]).Some? {
      var a := SplitOnce(s, [c]).value.0;
      forall i | 0 <= i < |a| ensures a[i] != c {
        OccursAtChar(s, c, i);
      }
    }
  }

  // ---------------------------------------------------------------- hosts and ports

  /** A host without URI delimiters, brackets or line feeds; ':' is allowed. */
  predicate PlainHost(host: string) {
    forall c :: c in "#?@[]\n" ==> c !in host
  }

  lemma FormatHostHasNo(host: string, c: char)
    requires c !in host && c != '[' && c != ']'
    ensures c !in FormatHost(host)
  {
  }

  lemma PlainHostHasNo(host: string, c: char)
    requires PlainHost(host) && c in "#?@[]\n"
    ensures c !in host
  {
  }

  lemma BracketedHostPort(host: string, digits: string)
    requires ']' !in host
    ensures ParseHostPort("[" + host + "]" + ":" + digits) ==
      match ParseU16(digits)
      case None => None
      case Some(port) => Some((host, port))
  {
    var raw := "[" + host + "]" + ":" + digits;
    var remainder := ":" + digits;
    assert StartsWith(raw, "[");
    assert raw[1..] == host + "]" + remainder;
    SplitOnceChar(host, ']', remainder);
    assert remainder[1..] == digits;
  }

  lemma BareHostPort(host: string, digits: string)
    requires '[' !in host && ':' !in digits
    ensures ParseHostPort(host + ":" + digits) ==
      match ParseU16(digits)
      case None => None
      case Some(port) => Some((host, port))
  {
    var raw := host + ":" + digits;
    assert raw[..1][0] != '[' by {
      assert raw[0] == if host == "" then ':' else host[0];
    }
    RSplitOnceAt(host, ':', digits);
  }

  lemma HostPortRoundTrip(host: string, port: nat)
    requires PlainHost(host) && port < 0x1_0000
    ensures ParseHostPort(FormatHost(host) + ":" + Decimal(port)) == Some((host, port))
  {
    PlainHostHasNo(host, '[');
    PlainHostHasNo(host, ']');
    ParseDecimal(port);
    var digits := Decimal(port);
    assert ':' !in digits;
    hide ParseHostPort, ParseU16, Decimal, PlainHost;
    if ':' in host {
      assert host[..1][0] != '[' && host[|host| - 1..][0] != ']';
      assert FormatHost(host) == "[" + host + "]";
      BracketedHostPort(host, digits);
    } else {
      BareHostPort(host, digits);
    }
  }

  // ---------------------------------------------------------------- ss://

  lemma SsLineAuthority(e: string, h: string, d: string, n: string)
    requires forall c :: c in "#?@" ==> c !in e && c !in h + ":" + d
    ensures StartsWith(SsLine(e, h, d, n), "ss://")
    ensures SplitOnce(SsLine(e, h, d, n)[|"ss://"|..], "#") == Some((SsAuthority(e, h, d), n))
    ensures Split(SsAuthority(e, h, d), '?') == [SsAuthority(e, h, d)]
    ensures RSplitOnce(SsAuthority(e, h, d), '@') == Some((e, h + ":" + d))
  {
    var authority := SsAuthority(e, h, d);
    assert SsLine(e, h, d, n)[..|"ss://"|] == "ss://" && SsLine(e, h, d, n)[|"ss://"|..] == authority + "#" + n;
    assert '#' in "#?@" && '?' in "#?@" && '@' in "#?@";
    assert '#' !in authority && '?' !in authority;
    hide SplitOnce, Split, RSplitOnce;
    SplitOnceChar(authority, '#', n);
    SplitSingle(authority, '?');
    RSplitOnceAt(e, '@', h + ":" + d);
  }

  lemma SsAuthorityChars(credential: string, host: string, port: nat, c: char)
    requires AllBytes(credential) && PlainHost(host) && c in "#?@"
    ensures c !in EncodeUrl(credential) && c !in FormatHost(host) + ":" + Decimal(port)
  {
    EncodeUrlHasNo(credential, c);
    PlainHostHasNo(host, c);
    FormatHostHasNo(host, c);
    assert !IsDigit(c);
  }

  lemma ParseSsParts(line: string, authority: string, fragment: string, credentialPart: string, hostPart: string,
                     credential: string, host: string, port: nat)
    requires StartsWith(line, "ss://")
    requires SplitOnce(line[|"ss://"|..], "#") == Some((authority, fragment))
    requires Split(authority, '?') == [authority]
    requires RSplitOnce(authority, '@') == Some((credentialPart, hostPart))
    requires Base64.TryDecodeText(credentialPart) == Some(credential)
    requires ParseHostPort(hostPart) == Some((host, port))
    ensures ParseSs(line) ==
      match SplitOnce(credential, ":")
      case None => None
      case Some((cipher, password)) =>
        Some(SsNode(Percent.DecodeComponent(fragment), host, port, cipher, password))
  {
    hide ParseHostPort, Base64.TryDecodeText, Percent.DecodeComponent, SplitOnce, RSplitOnce, Split, Decimal;
  }

  lemma ParsePrintedSs(credential: string, host: string, port: nat, name: string)
    requires IsUtf8(credential) && IsUtf8(name) && PlainHost(host) && port < 0x1_0000
    ensures
      var line := SsLine(EncodeUrl(credential), FormatHost(host), Decimal(port), Percent.Encode(name));
      && StartsWith(line, "ss://")
      && ParseSs(line) ==
        match SplitOnce(credential, ":")
        case None => None
        case Some((cipher, password)) => Some(SsNode(name, host, port, cipher, password))
  {
    hide IsUtf8, PlainHost, ParseHostPort, Base64.TryDecodeText, Base64.Encode, Percent.Encode, Percent.DecodeComponent,
         FormatHost, Decimal, SplitOnce, RSplitOnce, Split, StartsWith, SsLine, SsAuthority, ParseSs, SsNode;
    var (e, h, d, n) := (EncodeUrl(credential), FormatHost(host), Decimal(port), Percent.Encode(name));
    forall c | c in "#?@" ensures c !in e && c !in h + ":" + d {
      SsAuthorityChars(credential, host, port, c);
    }
    SsLineAuthority(e, h, d, n);
    Percent.DecodeEncoded(name);
    EncodeUrlDecodes(credential);
    HostPortRoundTrip(host, port);
    ParseSsParts(SsLine(e, h, d, n), SsAuthority(e, h, d), n, e, h + ":" + d, credential, host, port);
  }

  /** The node as the printer reads it: fields trimmed, defaults filled in. */
  function CanonicalSs(node: ProxyNode): ProxyNode
    requires IsRustNode(node) && SsUri(node).Ok?
  {
    SsNode(node.name, node.server, node.port,
           OptionalString(node, "cipher").value, OptionalString(node, "password").value)
  }

  /** An ss:// link with a plain host reads back as its node exactly when the cipher holds no ':'. */
  lemma SsRoundTrip(node: ProxyNode)
    requires IsRustNode(node) && SsUri(node).Ok? && PlainHost(node.server)
    ensures ParseSs(SsUri(node).value) == Some(CanonicalSs(node))
       <==> ':' !in OptionalString(node, "cipher").value
  {
    hide IsUtf8, Percent.Encode, Base64.Encode, ParseSs, FormatHost, OptionalString;
    var (cipher, password) := (Field(node, "cipher").value, Field(node, "password").value);
    AsciiIsUtf8(":");
    Utf8Concat3(cipher, ":", password);
    ParsePrintedSs(cipher + ":" + password, node.server, node.port, node.name);
    if ':' !in cipher {
      SplitOnceChar(cipher, ':', password);
    } else {
      SplitOnceFirstHasNo(cipher + ":" + password, ':');
      assert ParseSs(SsUri(node).value).Some? ==>
        ParseSs(SsUri(node).value).value.extra["cipher"] == Str(SplitOnce(cipher + ":" + password, ":").value.0);
    }
  }

  // ---------------------------------------------------------------- ssr://

  /** No "/?" inside, the mark between an SSR link's head and its query. */
  predicate NoQueryMark(s: string) {
    forall i :: 0 <= i < |s| - 1 ==> !(s[i] == '/' && s[i + 1] == '?')
  }

  lemma {:induction false} JoinNoQueryMark(parts: seq<string>)
    requires forall p :: p in parts ==> NoQueryMark(p)
    ensures NoQueryMark(Join(parts, ':'))
    decreases |parts|
  {
    if |parts| > 1 {
      var (a, b) := (parts[0], Join(parts[1..], ':'));
      JoinNoQueryMark(parts[1..]);
      assert NoQueryMark(a) && NoQueryMark(b);
      var s := a + [':'] + b;
      forall i | 0 <= i < |s| - 1 ensures !(s[i] == '/' && s[i + 1] == '?') {
        if i + 1 < |a| {
          assert s[i] == a[i] && s[i + 1] == a[i + 1];
        } else if i > |a| {
          assert s[i] == b[i - |a| - 1] && s[i + 1] == b[i - |a|];
        }
      }
    }
  }

  lemma SplitAtQueryMark(head: string, query: string)
    requires NoQueryMark(head)
    ensures SplitOnce(head + "/?" + query, "/?") == Some((head, query))
  {
    var s := head + "/?" + query;
    forall i: nat | i < |head| ensures !OccursAt(s, "/?", i) {
      OccursAtPair(s, '/', '?', i);
      assert s[i] == head[i] && s[i + 1] == if i + 1 < |head| then head[i + 1] else '/';
    }
    SplitOnceAt(head, "/?", query);
  }

  /** The printed values of an SSR node's four plain segments. */
  datatype SsrParts = SsrParts(protocol: string, cipher: string, obfs: string, password: string)

  function PartsOf(node: ProxyNode): (parts: SsrParts)
    requires IsRustNode(node) && SsrUri(node).Ok?
    ensures IsUtf8(parts.cipher) && IsUtf8(parts.password)
    ensures parts.cipher != "" && parts.password != "" && parts.protocol != "" && parts.obfs != ""
  {
    hide IsUtf8, OptionalString;
    SsrParts(Field(node, "protocol").GetOr("origin"), Field(node, "cipher").value,
             Field(node, "obfs").GetOr("plain"), Field(node, "password").value)
  }

  /** No segment hides the query mark; segments may still hold ':'. */
  predicate NoHiddenQuery(node: ProxyNode)
    requires IsRustNode(node) && SsrUri(node).Ok?
  {
    var parts := PartsOf(node);
    NoQueryMark(FormatHost(node.server)) && NoQueryMark(parts.protocol) && NoQueryMark(parts.cipher) && NoQueryMark(parts.obfs)
  }

  /** What the parser's six-segment head needs: a host, and no ':' in any segment. */
  predicate Segmented(node: ProxyNode)
    requires IsRustNode(node) && SsrUri(node).Ok?
  {
    var parts := PartsOf(node);
    && node.server != "" && ':' !in node.server
    && ':' !in parts.protocol && ':' !in parts.cipher && ':' !in parts.obfs
  }

  lemma SixNoQueryMark(a: string, b: string, c: string, d: string, e: string, f: string)
    requires NoQueryMark(a) && NoQueryMark(b) && NoQueryMark(c) && NoQueryMark(d) && NoQueryMark(e) && NoQueryMark(f)
    ensures NoQueryMark(Join([a, b, c, d, e, f], ':'))
  {
    hide NoQueryMark, Join;
    JoinNoQueryMark([a, b, c, d, e, f]);
  }

  lemma SixSplit(a: string, b: string, c: string, d: string, e: string, f: string, sep: char)
    requires sep !in a && sep !in b && sep !in c && sep !in d && sep !in e && sep !in f
    ensures Split(Join([a, b, c, d, e, f], sep), sep) == [a, b, c, d, e, f]
  {
    hide Split, Join;
    SplitJoin([a, b, c, d, e, f], sep);
  }

  lemma HeadHasNoQueryMark(node: ProxyNode)
    requires IsRustNode(node) && SsrUri(node).Ok? && NoHiddenQuery(node)
    ensures var parts := PartsOf(node);
            NoQueryMark(Join(SsrHead(node, parts.cipher, parts.password), ':'))
  {
    var parts := PartsOf(node);
    hide IsUtf8, OptionalString, EncodeUrl, Join, FormatHost, SsrUri, NoQueryMark, Decimal;
    EncodeUrlHasNo(parts.password, '/');
    NoSlashNoQueryMark(EncodeUrl(parts.password));
    NoSlashNoQueryMark(Decimal(node.port));
    SixNoQueryMark(FormatHost(node.server), Decimal(node.port), parts.protocol, parts.cipher, parts.obfs,
                   EncodeUrl(parts.password));
  }

  lemma NoSlashNoQueryMark(s: string)
    requires '/' !in s
    ensures NoQueryMark(s)
  {
  }

  lemma QueryPairHasNo(key: string, value: string, c: char)
    requires AllBytes(value) && c !in key && c in "&#"
    ensures c !in QueryPair(key, value)
  {
    EncodeUrlHasNo(value, c);
  }

  lemma SsrQuerySplits(node: ProxyNode)
    requires IsRustNode(node)
    ensures Join(SsrQuery(node), '&') != ""
    ensures Split(Join(SsrQuery(node), '&'), '&') == SsrQuery(node)
  {
    hide IsUtf8, OptionalString, EncodeUrl;
    var (o, p) := (Field(node, "obfs_param"), Field(node, "protocol_param"));
    if o.Some? {
      QueryPairHasNo("obfsparam", o.value, '&');
    }
    if p.Some? {
      QueryPairHasNo("protoparam", p.value, '&');
    }
    QueryPairHasNo("remarks", node.name, '&');
    assert QueryPair("remarks", node.name) != "";
    hide QueryPair;
    SplitJoin(SsrQuery(node), '&');
  }

  lemma SplitQueryPair(key: string, value: string)
    requires AllBytes(value) && '=' !in key
    ensures SplitOnce(QueryPair(key, value), "=") == Some((key, EncodeUrl(value)))
  {
    hide EncodeUrl, SplitOnce;
    SplitOnceChar(key, '=', EncodeUrl(value));
    assert QueryPair(key, value) == key + ['='] + EncodeUrl(value);
  }

  /** An encoded parameter is read as its percent-decoded text, and an empty one not at all. */
  lemma EncodedParamValue(value: string)
    requires IsUtf8(value)
    ensures SsrParamValue(EncodeUrl(value)) == if value == "" then None else Some(Percent.DecodeComponent(value))
  {
    EncodeUrlDecodes(value);
    Percent.DecodeNonEmpty(value);
    hide IsUtf8, EncodeUrl, Percent.DecodeComponent, Base64.TryDecodeText;
  }

  lemma ApplyQueryPair(settings: SsrSettings, key: string, value: string)
    requires IsUtf8(value) && '=' !in key
    ensures ApplySsrPair(settings, QueryPair(key, value)) ==
      if value == "" then settings
      else if key == "remarks" then settings.(name := Percent.DecodeComponent(value))
      else if key == "obfsparam" then settings.(extra := settings.extra["obfs_param" := Str(Percent.DecodeComponent(value))])
      else if key == "protoparam" then settings.(extra := settings.extra["protocol_param" := Str(Percent.DecodeComponent(value))])
      else settings
  {
    EncodedParamValue(value);
    SplitQueryPair(key, value);
    hide IsUtf8, EncodeUrl, Percent.DecodeComponent, SplitOnce, SsrParamValue, QueryPair;
  }

  function WithParam(extra: map<string, Json>, key: string, value: Option<string>): map<string, Json> {
    if value.Some? then extra[key := Str(value.value)] else extra
  }

  function DecodedOption(value: Option<string>): Option<string> {
    if value.Some? then Some(Percent.DecodeComponent(value.value)) else None
  }

  /** Exactly what a well-segmented SSR node reads back as, whatever its name and parameters. */
  function SsrImage(node: ProxyNode): ProxyNode
    requires IsRustNode(node) && SsrUri(node).Ok?
  {
    var parts := PartsOf(node);
    var base := SsrBaseExtra(parts.cipher, parts.password, parts.protocol, parts.obfs);
    ProxyNode(
      if node.name == "" then SsrDefaultName(node.server, node.port) else Percent.DecodeComponent(node.name),
      Ssr, node.server, node.port,
      WithParam(WithParam(base, "obfs_param", DecodedOption(OptionalString(node, "obfs_param"))),
                "protocol_param", DecodedOption(OptionalString(node, "protocol_param"))))
  }

  lemma ApplyOptionalPair(settings: SsrSettings, key: string, value: Option<string>, rest: seq<string>)
    requires '=' !in key
    requires value.Some? ==> IsUtf8(value.value) && value.value != ""
    ensures ApplySsrPairs(settings, OptionalPair(key, value) + rest)
         == ApplySsrPairs(if value.Some? then ApplySsrPair(settings, QueryPair(key, value.value)) else settings, rest)
  {
    hide IsUtf8, ApplySsrPair, QueryPair;
    var pairs := OptionalPair(key, value) + rest;
    if value.Some? {
      assert pairs[1..] == rest;
    } else {
      assert pairs == rest;
    }
  }

  lemma SsrQueryApplies(node: ProxyNode, settings: SsrSettings)
    requires IsRustNode(node)
    ensures ApplySsrPairs(settings, SsrQuery(node)) ==
      SsrSettings(
        if node.name == "" then settings.name else Percent.DecodeComponent(node.name),
        WithParam(WithParam(settings.extra, "obfs_param", DecodedOption(OptionalString(node, "obfs_param"))),
                  "protocol_param", DecodedOption(OptionalString(node, "protocol_param"))))
  {
    hide IsUtf8, OptionalString, ApplySsrPair, QueryPair, Percent.DecodeComponent, OptionalPair;
    var (o, p) := (Field(node, "obfs_param"), Field(node, "protocol_param"));
    var remarks := [QueryPair("remarks", node.name)];
    var first := if o.Some? then ApplySsrPair(settings, QueryPair("obfsparam", o.value)) else settings;
    var second := if p.Some? then ApplySsrPair(first, QueryPair("protoparam", p.value)) else first;
    assert SsrQuery(node) == OptionalPair("obfsparam", o) + (OptionalPair("protoparam", p) + remarks);
    ApplyOptionalPair(settings, "obfsparam", o, OptionalPair("protoparam", p) + remarks);
    ApplyOptionalPair(first, "protoparam", p, remarks);
    assert remarks[1..] == [];
    if o.Some? {
      ApplyQueryPair(settings, "obfsparam", o.value);
    }
    if p.Some? {
      ApplyQueryPair(first, "protoparam", p.value);
    }
    ApplyQueryPair(second, "remarks", node.name);
  }

  lemma HeadSplits(node: ProxyNode)
    requires IsRustNode(node) && SsrUri(node).Ok? && Segmented(node)
    ensures var parts := PartsOf(node);
            var head := SsrHead(node, parts.cipher, parts.password);
            Split(Join(head, ':'), ':') == head
  {
    hide IsUtf8, OptionalString, Join, Split, FormatHost, EncodeUrl, SsrUri;
    var parts := PartsOf(node);
    EncodeUrlHasNo(parts.password, ':');
    FormatHostHasNoColon(node.server);
    SixSplit(FormatHost(node.server), Decimal(node.port), parts.protocol, parts.cipher, parts.obfs,
             EncodeUrl(parts.password), ':');
  }

  lemma FormatHostHasNoColon(host: string)
    requires ':' !in host
    ensures FormatHost(host) == host
  {
  }

  lemma HeadParses(host: string, digits: string, protocol: string, cipher: string, obfs: string, secret: string,
                   port: nat, password: string)
    requires host != "" && protocol != "" && cipher != "" && obfs != "" && secret != ""
    requires ParseU16(digits) == Some(port)
    requires Base64.TryDecodeText(secret) == Some(password)
    ensures ParseSsrHead([host, digits, protocol, cipher, obfs, secret]) == Some((host, port,
              SsrSettings(SsrDefaultName(host, port), SsrBaseExtra(cipher, password, protocol, obfs))))
  {
    hide ParseU16, Base64.TryDecodeText, SsrDefaultName, SsrBaseExtra;
  }

  lemma HeadSegments(node: ProxyNode)
    requires IsRustNode(node) && SsrUri(node).Ok? && Segmented(node)
    ensures var parts := PartsOf(node);
            ParseSsrHead(SsrHead(node, parts.cipher, parts.password)) == Some((node.server, node.port,
              SsrSettings(SsrDefaultName(node.server, node.port),
                          SsrBaseExtra(parts.cipher, parts.password, parts.protocol, parts.obfs))))
  {
    hide IsUtf8, OptionalString, FormatHost, Decimal, ParseU16, EncodeUrl, SsrUri, ParseSsrHead, SsrDefaultName, SsrBaseExtra;
    var parts := PartsOf(node);
    FormatHostHasNoColon(node.server);
    EncodeUrlDecodes(parts.password);
    EncodedNotEmpty(parts.password);
    ParseDecimal(node.port);
    HeadParses(node.server, Decimal(node.port), parts.protocol, parts.cipher, parts.obfs, EncodeUrl(parts.password),
               node.port, parts.password);
  }

  lemma EncodedNotEmpty(s: string)
    requires IsUtf8(s) && s != ""
    ensures EncodeUrl(s) != ""
  {
  }

  lemma ParsePrintedSsrText(node: ProxyNode)
    requires IsRustNode(node) && SsrUri(node).Ok? && NoHiddenQuery(node) && Segmented(node)
    ensures var parts := PartsOf(node);
            ParseSsrText(SsrPlain(node, parts.cipher, parts.password)) == Some(SsrImage(node))
  {
    hide IsUtf8, OptionalString, Join, Split, SplitOnce, SsrHead, SsrQuery, ParseSsrHead, ApplySsrPairs, SsrUri;
    var parts := PartsOf(node);
    var head := SsrHead(node, parts.cipher, parts.password);
    HeadHasNoQueryMark(node);
    SplitAtQueryMark(Join(head, ':'), Join(SsrQuery(node), '&'));
    HeadSplits(node);
    HeadSegments(node);
    SsrQuerySplits(node);
    SsrQueryApplies(node, SsrSettings(SsrDefaultName(node.server, node.port),
                                      SsrBaseExtra(parts.cipher, parts.password, parts.protocol, parts.obfs)));
  }

  /** Base64 around the whole link: what is parsed is the printed plain text. */
  lemma SsrLinkDecodes(node: ProxyNode)
    requires IsRustNode(node) && SsrUri(node).Ok?
    ensures var parts := PartsOf(node);
            var line := SsrUri(node).value;
            StartsWith(line, "ssr://") && ParseSsr(line) == ParseSsrText(SsrPlain(node, parts.cipher, parts.password))
  {
    var parts := PartsOf(node);
    var plain := SsrPlain(node, parts.cipher, parts.password);
    SsrPlainUtf8(node, parts.cipher, parts.password);
    hide IsUtf8, OptionalString, SsrPlain, ParseSsrText, Base64.TryDecodeText;
    EncodeUrlDecodes(plain);
    EncodeUrlTrimmed(plain);
    assert SsrLine(EncodeUrl(plain))[|"ssr://"|..] == EncodeUrl(plain);
  }

  lemma EncodeUrlTrimmed(s: string)
    requires AllBytes(s)
    ensures Trim(EncodeUrl(s)) == EncodeUrl(s)
  {
    var e := EncodeUrl(s);
    if e != "" {
      Base64.EncodedAlphabet(Base64.URL_SAFE_NO_PAD, s, e[0]);
      Base64.EncodedAlphabet(Base64.URL_SAFE_NO_PAD, s, e[|e| - 1]);
      TrimVisible(e);
    }
  }

  // ---------------------------------------------------------------- exactly when an ssr:// link reads back

  /** The parser decodes names and parameters once more, so they must be fixed points of that decoder. */
  predicate StableNames(node: ProxyNode) {
    var (o, p) := (OptionalString(node, "obfs_param"), OptionalString(node, "protocol_param"));
    && node.name != "" && Percent.DecodeComponent(node.name) == node.name
    && (o.Some? ==> Percent.DecodeComponent(o.value) == o.value)
    && (p.Some? ==> Percent.DecodeComponent(p.value) == p.value)
  }

  /** The node as the printer reads it: fields trimmed, defaults filled in. */
  function CanonicalSsr(node: ProxyNode): ProxyNode
    requires IsRustNode(node) && SsrUri(node).Ok?
  {
    var parts := PartsOf(node);
    var base := SsrBaseExtra(parts.cipher, parts.password, parts.protocol, parts.obfs);
    ProxyNode(node.name, Ssr, node.server, node.port,
              WithParam(WithParam(base, "obfs_param", OptionalString(node, "obfs_param")),
                        "protocol_param", OptionalString(node, "protocol_param")))
  }

  lemma ImageIsCanonical(node: ProxyNode)
    requires IsRustNode(node) && SsrUri(node).Ok?
    ensures SsrImage(node) == CanonicalSsr(node) <==> StableNames(node)
  {
    hide IsUtf8, Percent.DecodeComponent, OptionalString;
    var (image, canonical) := (SsrImage(node), CanonicalSsr(node));
    var (o, p) := (OptionalString(node, "obfs_param"), OptionalString(node, "protocol_param"));
    assert o.Some? ==> image.extra["obfs_param"] == Str(Percent.DecodeComponent(o.value))
                       && canonical.extra["obfs_param"] == Str(o.value);
    assert p.Some? ==> image.extra["protocol_param"] == Str(Percent.DecodeComponent(p.value))
                       && canonical.extra["protocol_param"] == Str(p.value);
  }

  /** The query pairs never touch the four head fields. */
  lemma {:induction false} PairsKeepHead(settings: SsrSettings, pairs: seq<string>, key: string)
    requires key != "obfs_param" && key != "protocol_param"
    ensures var after := ApplySsrPairs(settings, pairs);
            && (key in after.extra <==> key in settings.extra)
            && (key in after.extra ==> after.extra[key] == settings.extra[key])
    decreases |pairs|
  {
    if pairs != [] {
      PairsKeepHead(ApplySsrPair(settings, pairs[0]), pairs[1..], key);
    }
  }

  predicate ColonFree(value: Json) {
    value.Str? && ':' !in value.text
  }

  /** Whatever the text, a parsed SSR node's host, protocol, cipher and obfs hold no ':'. */
  lemma ParsedSsrIsSegmented(decoded: string)
    ensures ParseSsrText(decoded).Some? ==>
      var node := ParseSsrText(decoded).value;
      && node.server != "" && ':' !in node.server
      && forall key :: key in ["protocol", "cipher", "obfs"] ==> key in node.extra && ColonFree(node.extra[key])
  {
    hide IsUtf8, Base64.TryDecodeText, Split, SplitOnce, ApplySsrPairs, ParseU16, Decimal;
    if ParseSsrText(decoded).Some? {
      var (head, query) := SsrHeadAndQuery(decoded);
      var (server, port, base) := ParseSsrHead(Split(head, ':')).value;
      forall key | key in ["protocol", "cipher", "obfs"]
        ensures key in base.extra && ColonFree(base.extra[key])
      {
      }
      forall key | key in ["protocol", "cipher", "obfs"]
        ensures key in ParseSsrText(decoded).value.extra && ColonFree(ParseSsrText(decoded).value.extra[key])
      {
        PairsKeepHead(base, Split(query, '&'), key);
      }
    }
  }

  lemma WithParamKeeps(extra: map<string, Json>, key: string, value: Option<string>, other: string)
    requires other != key && other in extra
    ensures other in WithParam(extra, key, value) && WithParam(extra, key, value)[other] == extra[other]
  {
  }

  lemma CanonicalHeadFields(node: ProxyNode, key: string)
    requires IsRustNode(node) && SsrUri(node).Ok?
    requires key in ["protocol", "cipher", "obfs"]
    ensures var (extra, parts) := (CanonicalSsr(node).extra, PartsOf(node));
      key in extra && extra[key] == SsrBaseExtra(parts.cipher, parts.password, parts.protocol, parts.obfs)[key]
  {
    hide IsUtf8, OptionalString, PartsOf, SsrUri, WithParam;
    var parts := PartsOf(node);
    var base := SsrBaseExtra(parts.cipher, parts.password, parts.protocol, parts.obfs);
    WithParamKeeps(base, "obfs_param", OptionalString(node, "obfs_param"), key);
    WithParamKeeps(WithParam(base, "obfs_param", OptionalString(node, "obfs_param")),
                   "protocol_param", OptionalString(node, "protocol_param"), key);
  }

  lemma {:induction false} JoinKeepsQueryMark(parts: seq<string>, p: string)
    requires p in parts && !NoQueryMark(p)
    ensures !NoQueryMark(Join(parts, ':'))
    decreases |parts|
  {
    if |parts| > 1 {
      var (a, b) := (parts[0], Join(parts[1..], ':'));
      var s := a + [':'] + b;
      if p == a {
        var i :| 0 <= i < |a| - 1 && a[i] == '/' && a[i + 1] == '?';
        assert s[i] == '/' && s[i + 1] == '?';
      } else {
        JoinKeepsQueryMark(parts[1..], p);
        var i :| 0 <= i < |b| - 1 && b[i] == '/' && b[i + 1] == '?';
        assert s[|a| + 1 + i] == '/' && s[|a| + 1 + (i + 1)] == '?';
      }
    }
  }

  /** The text is split at the first query mark, so one that lies in `front` cuts it short. */
  lemma EarlyQueryMark(front: string, rest: string)
    requires !NoQueryMark(front)
    ensures |Split(SsrHeadAndQuery(front + rest).0, ':')| <= |Split(front, ':')|
  {
    var s := front + rest;
    var i: nat :| i < |front| - 1 && front[i] == '/' && front[i + 1] == '?';
    var j := HeadEndsAtMark(s, i);
    hide Split, SsrHeadAndQuery;
    assert s[..j] == front[..j] && front == front[..j] + front[j..];
    SplitPrefix(front[..j], front[j..], ':');
  }

  lemma HeadEndsAtMark(s: string, i: nat) returns (j: nat)
    requires i < |s| - 1 && s[i] == '/' && s[i + 1] == '?'
    ensures j <= i && SsrHeadAndQuery(s).0 == s[..j]
  {
    OccursAtPair(s, '/', '?', i);
    hide OccursAt;
    j := Find(s, "/?").value;
  }

  lemma ParseNeedsSixSegments(decoded: string)
    requires |Split(SsrHeadAndQuery(decoded).0, ':')| < 6
    ensures ParseSsrText(decoded) == None
  {
    hide Split, SsrHeadAndQuery;
  }

  lemma HiddenQueryLoses(five: seq<string>, secret: string, query: string)
    requires |five| == 5 && (forall p :: p in five ==> ':' !in p) && exists p :: p in five && !NoQueryMark(p)
    ensures ParseSsrText(Join(five + [secret], ':') + "/?" + query) == None
  {
    hide Join, Split, NoQueryMark, ParseSsrText, SsrHeadAndQuery;
    var p :| p in five && !NoQueryMark(p);
    var front := Join(five, ':');
    JoinKeepsQueryMark(five, p);
    JoinSnoc(five, secret, ':');
    SplitJoin(five, ':');
    var rest := [':'] + secret + "/?" + query;
    assert front + [':'] + secret + "/?" + query == front + rest;
    EarlyQueryMark(front, rest);
    ParseNeedsSixSegments(front + rest);
  }

  /** A segment with "/?" in it moves the end of the head, and too few segments are left. */
  lemma HiddenQueryFails(node: ProxyNode)
    requires IsRustNode(node) && SsrUri(node).Ok? && Segmented(node) && !NoHiddenQuery(node)
    ensures var parts := PartsOf(node);
            ParseSsrText(SsrPlain(node, parts.cipher, parts.password)) == None
  {
    hide IsUtf8, OptionalString, EncodeUrl, Join, FormatHost, SsrUri, NoQueryMark, Decimal, ParseSsrText, PartsOf, SsrQuery;
    var parts := PartsOf(node);
    var five := [FormatHost(node.server), Decimal(node.port), parts.protocol, parts.cipher, parts.obfs];
    FormatHostHasNoColon(node.server);
    assert ':' !in Decimal(node.port);
    assert exists p :: p in five && !NoQueryMark(p) by {
      assert five[0] in five && five[2] in five && five[3] in five && five[4] in five;
    }
    HiddenQueryLoses(five, EncodeUrl(parts.password), Join(SsrQuery(node), '&'));
    PlainIsHeadAndQuery(node, five);
  }

  lemma PlainIsHeadAndQuery(node: ProxyNode, five: seq<string>)
    requires IsRustNode(node) && SsrUri(node).Ok?
    requires var parts := PartsOf(node);
      five == [FormatHost(node.server), Decimal(node.port), parts.protocol, parts.cipher, parts.obfs]
    ensures var parts := PartsOf(node);
      SsrPlain(node, parts.cipher, parts.password) == Join(five + [EncodeUrl(parts.password)], ':') + "/?" + Join(SsrQuery(node), '&')
  {
    hide IsUtf8, OptionalString, EncodeUrl, Join, FormatHost, SsrUri, Decimal, SsrQuery;
    var parts := PartsOf(node);
    assert SsrHead(node, parts.cipher, parts.password) == five + [EncodeUrl(parts.password)];
  }

  /**
   An ssr:// link reads back as its node exactly when the host is non-empty, no segment holds
   a ':' (so no IPv6 host) or a "/?", and the name and parameters survive one more
   percent-decoding.
   */
  lemma SsrRoundTrip(node: ProxyNode)
    requires IsRustNode(node) && SsrUri(node).Ok?
    ensures StartsWith(SsrUri(node).value, "ssr://")
    ensures ParseSsr(SsrUri(node).value) == Some(CanonicalSsr(node))
       <==> NoHiddenQuery(node) && Segmented(node) && StableNames(node)
  {
    hide IsUtf8, OptionalString, SsrUri, ParseSsr, ParseSsrText, SsrPlain, PartsOf, SsrImage, StableNames, NoHiddenQuery;
    var parts := PartsOf(node);
    SsrLinkDecodes(node);
    if Segmented(node) && !NoHiddenQuery(node) {
      HiddenQueryFails(node);
    } else if Segmented(node) {
      ParsePrintedSsrText(node);
      ImageIsCanonical(node);
    } else if ParseSsr(SsrUri(node).value) == Some(CanonicalSsr(node)) {
      ParsedSsrIsSegmented(SsrPlain(node, parts.cipher, parts.password));
      CanonicalHeadFields(node, "protocol");
      CanonicalHeadFields(node, "cipher");
      CanonicalHeadFields(node, "obfs");
      assert false;
    }
  }

  /** In particular an IPv6 host is lost: the bracketed host adds segments. */
  lemma SsrIpv6Lost(node: ProxyNode)
    requires IsRustNode(node) && SsrUri(node).Ok? && ':' in node.server
    ensures ParseSsr(SsrUri(node).value) != Some(CanonicalSsr(node))
  {
    SsrRoundTrip(node);
  }

  const ESCAPED_NAME := ProxyNode("%41", Ssr, "h", 1, map["cipher" := Str("c"), "password" := Str("p")])

  lemma EscapedNameIsRust()
    ensures IsRustNode(ESCAPED_NAME)
  {
    hide IsUtf8;
    AsciiIsUtf8("%41");
    AsciiIsUtf8("h");
    AsciiIsUtf8("c");
    AsciiIsUtf8("p");
  }

  lemma LetterFieldRead(node: ProxyNode, field: string, letter: char)
    requires field in node.extra && node.extra[field] == Str([letter]) && IsPlainAscii(letter)
    ensures RequiredString(node, field) == Ok([letter])
  {
    hide IsPlainAscii, Trim;
    TrimVisible([letter]);
  }

  lemma EscapedNameCredential()
    ensures RequiredString(ESCAPED_NAME, "cipher") == Ok("c") && RequiredString(ESCAPED_NAME, "password") == Ok("p")
  {
    hide RequiredString;
    LetterFieldRead(ESCAPED_NAME, "cipher", 'c');
    LetterFieldRead(ESCAPED_NAME, "password", 'p');
  }

  lemma EscapedNameFields()
    ensures IsRustNode(ESCAPED_NAME) && SsrUri(ESCAPED_NAME).Ok?
  {
    EscapedNameIsRust();
    EscapedNameCredential();
    hide IsUtf8, IsRustNode, RequiredString, SsrPlain, EncodeUrl, SsrLine;
  }

  lemma EscapedNameDecodes()
    ensures Percent.DecodeComponent("%41") == "A"
  {
    assert Percent.EscapedByte('4', '1') == 'A';
    assert "%41"[3..] == "" && Percent.DecodeBytes("") == "";
    assert Percent.DecodeBytes("%41") == ['A'] + "" == "A";
    AsciiIsUtf8("A");
  }

  /** For instance a node named "%41" comes back with another name. */
  lemma EscapedNameLost()
    ensures IsRustNode(ESCAPED_NAME) && SsrUri(ESCAPED_NAME).Ok?
    ensures ParseSsr(SsrUri(ESCAPED_NAME).value) != Some(CanonicalSsr(ESCAPED_NAME))
  {
    EscapedNameFields();
    EscapedNameDecodes();
    hide IsUtf8, IsRustNode, SsrUri, ParseSsr, CanonicalSsr, NoHiddenQuery, Segmented, Percent.DecodeComponent, OptionalString;
    SsrRoundTrip(ESCAPED_NAME);
    assert !StableNames(ESCAPED_NAME);
  }
}
