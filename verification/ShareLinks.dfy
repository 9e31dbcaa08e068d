/** Proxy nodes, and the printer of share links and base64 subscriptions. */
module ShareLinks {
  import opened Text
  import Base64
  import Percent

  /** A JSON value of a node's `extra` map; only strings matter here. */
  datatype Json = Str(text: string) | NotString

  datatype Protocol = Ss | Ssr | OtherProtocol(tag: string)

  /** Shadowsocks and ShadowsocksR links carry no transport or TLS settings. */
  datatype ProxyNode = ProxyNode(
    name: string,
    protocol: Protocol,
    server: string,
    port: nat,
    extra: map<string, Json>)

  datatype PrintError = MissingField(nodeName: string, field: string) | Other(nodeName: string)

  datatype Printed<+T> = Ok(value: T) | Err(error: PrintError) {
    predicate IsFailure() { Err? }
    function PropagateFailure<U>(): Printed<U>
      requires Err?
    {
      Err(error)
    }
    function Extract(): T
      requires Ok?
    {
      value
    }
  }

  /** `optional_string`: a present, non-blank string field, trimmed. */
  function OptionalString(node: ProxyNode, field: string): (r: Option<string>)
    ensures r.Some? ==> r.value != ""
  {
    if field in node.extra && node.extra[field].Str? && Trim(node.extra[field].text) != "" then
      Some(Trim(node.extra[field].text))
    else None
  }

  function RequiredString(node: ProxyNode, field: string): Printed<string> {
    match OptionalString(node, field)
    case Some(s) => Ok(s)
    case None => Err(MissingField(node.name, field))
  }

  function FormatHost(host: string): string {
    if ':' in host && !StartsWith(host, "[") && !EndsWith(host, "]") then "[" + host + "]" else host
  }

  function EncodeUrl(s: string): string
    requires AllBytes(s)
  {
    Base64.Encode(Base64.URL_SAFE_NO_PAD, s)
  }

  /** Rust strings: every text of the node is valid UTF-8, and the port is a `u16`. */
  predicate IsRustNode(node: ProxyNode) {
    && IsUtf8(node.name) && IsUtf8(node.server) && node.port < 0x1_0000
    && forall k :: k in node.extra && node.extra[k].Str? ==> IsUtf8(node.extra[k].text)
  }

  predicate AllRustNodes(nodes: seq<ProxyNode>) {
    forall i :: 0 <= i < |nodes| ==> IsRustNode(nodes[i])
  }

  lemma OptionalStringUtf8(node: ProxyNode, field: string)
    requires IsRustNode(node)
    ensures OptionalString(node, field).Some? ==> IsUtf8(OptionalString(node, field).value)
  {
    if OptionalString(node, field).Some? {
      TrimUtf8(node.extra[field].text);
    }
  }

  function Field(node: ProxyNode, field: string): (r: Option<string>)
    requires IsRustNode(node)
    ensures r == OptionalString(node, field)
    ensures r.Some? ==> r.value != "" && IsUtf8(r.value)
  {
    OptionalStringUtf8(node, field);
    OptionalString(node, field)
  }

  function SsAuthority(credential: string, host: string, port: string): string {
    credential + "@" + (host + ":" + port)
  }

  function SsLine(credential: string, host: string, port: string, name: string): string {
    "ss://" + (SsAuthority(credential, host, port) + "#" + name)
  }

  function SsrLine(body: string): string {
    "ssr://" + body
  }

  lemma NameBytes(node: ProxyNode)
    requires IsRustNode(node)
    ensures AllBytes(node.name)
  {
    hide IsUtf8;
  }

  lemma RequiredBytes(node: ProxyNode, field: string)
    requires IsRustNode(node)
    ensures RequiredString(node, field).Ok? ==> AllBytes(RequiredString(node, field).value)
  {
    hide IsUtf8, IsRustNode, OptionalString;
    OptionalStringUtf8(node, field);
  }

  function Credential(cipher: string, password: string): (credential: string)
    requires AllBytes(cipher) && AllBytes(password)
    ensures AllBytes(credential)
  {
    cipher + ":" + password
  }

  function SsUri(node: ProxyNode): Printed<string>
    requires IsRustNode(node)
  {
    NameBytes(node);
    RequiredBytes(node, "cipher");
    RequiredBytes(node, "password");
    hide *;
    var cipher :- RequiredString(node, "cipher");
    var password :- RequiredString(node, "password");
    Ok(SsLine(EncodeUrl(Credential(cipher, password)), FormatHost(node.server), Decimal(node.port), Percent.Encode(node.name)))
  }

  function QueryPair(key: string, value: string): string
    requires AllBytes(value)
  {
    key + "=" + EncodeUrl(value)
  }

  function OptionalPair(key: string, value: Option<string>): (pairs: seq<string>)
    requires value.Some? ==> AllBytes(value.value)
  {
    if value.Some? then [QueryPair(key, value.value)] else []
  }

  /** The query pairs in printing order; the remarks are always there. */
  function SsrQuery(node: ProxyNode): seq<string>
    requires IsRustNode(node)
  {
    OptionalPair("obfsparam", Field(node, "obfs_param"))
    + OptionalPair("protoparam", Field(node, "protocol_param"))
    + [QueryPair("remarks", node.name)]
  }

  function SsrHead(node: ProxyNode, cipher: string, password: string): seq<string>
    requires IsRustNode(node) && AllBytes(password)
  {
    [FormatHost(node.server),
     Decimal(node.port),
     OptionalString(node, "protocol").GetOr("origin"),
     cipher,
     OptionalString(node, "obfs").GetOr("plain"),
     EncodeUrl(password)]
  }

  function SsrPlain(node: ProxyNode, cipher: string, password: string): string
    requires IsRustNode(node) && AllBytes(password)
  {
    Join(SsrHead(node, cipher, password), ':') + "/?" + Join(SsrQuery(node), '&')
  }

  lemma {:induction false} JoinUtf8(parts: seq<string>, c: char)
    requires forall p :: p in parts ==> IsUtf8(p)
    requires c as int < 128
    ensures IsUtf8(Join(parts, c))
    decreases |parts|
  {
    if |parts| > 1 {
      JoinUtf8(parts[1..], c);
      AsciiIsUtf8([c]);
      Utf8Concat(parts[0], [c]);
      Utf8Concat(parts[0] + [c], Join(parts[1..], c));
    }
  }

  lemma EncodeUrlUtf8(s: string)
    requires AllBytes(s)
    ensures IsUtf8(EncodeUrl(s))
  {
    var e := EncodeUrl(s);
    forall i | 0 <= i < |e| ensures e[i] as int < 128 {
      Base64.EncodedAlphabet(Base64.URL_SAFE_NO_PAD, s, e[i]);
    }
    AsciiIsUtf8(e);
  }

  lemma QueryPairUtf8(key: string, value: string)
    requires AllAscii(key) && AllBytes(value)
    ensures IsUtf8(QueryPair(key, value))
  {
    EncodeUrlUtf8(value);
    AsciiIsUtf8(key + "=");
    Utf8Concat(key + "=", EncodeUrl(value));
  }

  lemma FormatHostUtf8(host: string)
    requires IsUtf8(host)
    ensures IsUtf8(FormatHost(host))
  {
    AsciiIsUtf8("[");
    AsciiIsUtf8("]");
    Utf8Concat3("[", host, "]");
  }

  lemma DecimalUtf8(n: nat)
    ensures IsUtf8(Decimal(n))
  {
    AsciiIsUtf8(Decimal(n));
  }

  lemma SixUtf8(a: string, b: string, c: string, d: string, e: string, f: string)
    requires IsUtf8(a) && IsUtf8(b) && IsUtf8(c) && IsUtf8(d) && IsUtf8(e) && IsUtf8(f)
    ensures IsUtf8(Join([a, b, c, d, e, f], ':'))
  {
    hide IsUtf8, Join;
    JoinUtf8([a, b, c, d, e, f], ':');
  }

  lemma DefaultsUtf8()
    ensures IsUtf8("origin") && IsUtf8("plain")
  {
    hide IsUtf8;
    AsciiIsUtf8("origin");
    AsciiIsUtf8("plain");
  }

  lemma GetOrUtf8(node: ProxyNode, field: string, default: string)
    requires IsRustNode(node) && IsUtf8(default)
    ensures IsUtf8(OptionalString(node, field).GetOr(default))
  {
    hide IsUtf8, OptionalString, IsRustNode;
    OptionalStringUtf8(node, field);
  }

  lemma HostAndPortUtf8(node: ProxyNode)
    requires IsRustNode(node)
    ensures IsUtf8(FormatHost(node.server)) && IsUtf8(Decimal(node.port))
  {
    hide IsUtf8, FormatHost, Decimal;
    FormatHostUtf8(node.server);
    DecimalUtf8(node.port);
  }

  lemma SsrHeadUtf8(node: ProxyNode, cipher: string, password: string)
    requires IsRustNode(node) && IsUtf8(cipher) && IsUtf8(password)
    ensures IsUtf8(Join(SsrHead(node, cipher, password), ':'))
  {
    hide IsUtf8, IsRustNode, AllBytes, OptionalString, FormatHost, Decimal, EncodeUrl, Join;
    DefaultsUtf8();
    GetOrUtf8(node, "protocol", "origin");
    GetOrUtf8(node, "obfs", "plain");
    HostAndPortUtf8(node);
    EncodeUrlUtf8(password);
    SixUtf8(FormatHost(node.server), Decimal(node.port), OptionalString(node, "protocol").GetOr("origin"), cipher,
            OptionalString(node, "obfs").GetOr("plain"), EncodeUrl(password));
  }

  lemma OptionalPairUtf8(key: string, value: Option<string>)
    requires AllAscii(key) && (value.Some? ==> AllBytes(value.value))
    ensures forall p :: p in OptionalPair(key, value) ==> IsUtf8(p)
  {
    if value.Some? {
      QueryPairUtf8(key, value.value);
    }
  }

  lemma SsrQueryUtf8(node: ProxyNode)
    requires IsRustNode(node)
    ensures IsUtf8(Join(SsrQuery(node), '&'))
  {
    OptionalPairUtf8("obfsparam", Field(node, "obfs_param"));
    OptionalPairUtf8("protoparam", Field(node, "protocol_param"));
    QueryPairUtf8("remarks", node.name);
    hide IsUtf8, QueryPair, OptionalPair, Join;
    JoinUtf8(SsrQuery(node), '&');
  }

  lemma SsrPlainUtf8(node: ProxyNode, cipher: string, password: string)
    requires IsRustNode(node) && IsUtf8(cipher) && IsUtf8(password)
    ensures IsUtf8(SsrPlain(node, cipher, password))
  {
    hide IsUtf8, IsRustNode, SsrHead, SsrQuery, Join;
    SsrHeadUtf8(node, cipher, password);
    SsrQueryUtf8(node);
    AsciiIsUtf8("/?");
    Utf8Concat3(Join(SsrHead(node, cipher, password), ':'), "/?", Join(SsrQuery(node), '&'));
  }

  function SsrUri(node: ProxyNode): Printed<string>
    requires IsRustNode(node)
  {
    var cipher :- RequiredString(node, "cipher");
    var password :- RequiredString(node, "password");
    assert Field(node, "cipher").Some? && Field(node, "password").Some?;
    SsrPlainUtf8(node, cipher, password);
    Ok(SsrLine(EncodeUrl(SsrPlain(node, cipher, password))))
  }

  /** The part of `build_ssr_uri` that pushes the query pairs */
  method BuildSsrQuery(node: ProxyNode) returns (queryPairs: seq<string>)
    requires IsRustNode(node)
    ensures queryPairs == SsrQuery(node)
  {
    hide IsUtf8, OptionalString, QueryPair;
    queryPairs := [];
    var obfsParam := Field(node, "obfs_param");
    if obfsParam.Some? {
      queryPairs := queryPairs + [QueryPair("obfsparam", obfsParam.value)];
    }
    var protocolParam := Field(node, "protocol_param");
    if protocolParam.Some? {
      queryPairs := queryPairs + [QueryPair("protoparam", protocolParam.value)];
    }
    queryPairs := queryPairs + [QueryPair("remarks", node.name)];
  }

  /** `build_ssr_uri` */
  method BuildSsrUri(node: ProxyNode) returns (r: Printed<string>)
    requires IsRustNode(node)
    ensures r == SsrUri(node)
  {
    hide IsUtf8, OptionalString, Join, EncodeUrl, SsrHead, SsrQuery, SsrLine;
    var cipher := Field(node, "cipher");
    if cipher.None? {
      return Err(MissingField(node.name, "cipher"));
    }
    var password := Field(node, "password");
    if password.None? {
      return Err(MissingField(node.name, "password"));
    }
    var queryPairs := BuildSsrQuery(node);
    var plain := Join(SsrHead(node, cipher.value, password.value), ':');
    plain := plain + "/?";
    plain := plain + Join(queryPairs, '&');
    SsrPlainUtf8(node, cipher.value, password.value);
    r := Ok(SsrLine(EncodeUrl(plain)));
  }

  lemma SsAuthorityUtf8(credential: string, host: string, port: string)
    requires IsUtf8(credential) && IsUtf8(host) && IsUtf8(port)
    ensures IsUtf8(SsAuthority(credential, host, port))
  {
    AsciiIsUtf8("@");
    AsciiIsUtf8(":");
    hide IsUtf8;
    Utf8Concat3(host, ":", port);
    Utf8Concat3(credential, "@", host + ":" + port);
  }

  lemma SsLineUtf8(credential: string, host: string, port: string, name: string)
    requires IsUtf8(credential) && IsUtf8(host) && IsUtf8(port) && IsUtf8(name)
    ensures IsUtf8(SsLine(credential, host, port, name))
  {
    hide IsUtf8, SsAuthority;
    SsAuthorityUtf8(credential, host, port);
    AsciiIsUtf8("ss://");
    AsciiIsUtf8("#");
    Utf8Concat3(SsAuthority(credential, host, port), "#", name);
    Utf8Concat("ss://", SsAuthority(credential, host, port) + "#" + name);
  }

  lemma SsrLineUtf8(body: string)
    requires IsUtf8(body)
    ensures IsUtf8(SsrLine(body))
  {
    hide IsUtf8;
    AsciiIsUtf8("ssr://");
    Utf8Concat("ssr://", body);
  }

  lemma PercentUtf8(s: string)
    requires AllBytes(s)
    ensures IsUtf8(Percent.Encode(s))
  {
    var e := Percent.Encode(s);
    forall i | 0 <= i < |e| ensures e[i] as int < 128 {
      Percent.EncodedAlphabet(s, e[i]);
    }
    AsciiIsUtf8(e);
  }

  lemma SsUriUtf8(node: ProxyNode)
    requires IsRustNode(node) && SsUri(node).Ok?
    ensures IsUtf8(SsUri(node).value)
  {
    hide IsUtf8, OptionalString, EncodeUrl, FormatHost, Percent.Encode, Decimal, SsLine;
    var (cipher, password) := (Field(node, "cipher").value, Field(node, "password").value);
    EncodeUrlUtf8(cipher + ":" + password);
    FormatHostUtf8(node.server);
    DecimalUtf8(node.port);
    PercentUtf8(node.name);
    SsLineUtf8(EncodeUrl(cipher + ":" + password), FormatHost(node.server), Decimal(node.port), Percent.Encode(node.name));
  }

  lemma SsrUriUtf8(node: ProxyNode)
    requires IsRustNode(node) && SsrUri(node).Ok?
    ensures IsUtf8(SsrUri(node).value)
  {
    hide IsUtf8, OptionalString, EncodeUrl, SsrPlain, SsrLine;
    var (cipher, password) := (Field(node, "cipher").value, Field(node, "password").value);
    SsrPlainUtf8(node, cipher, password);
    EncodeUrlUtf8(SsrPlain(node, cipher, password));
    SsrLineUtf8(EncodeUrl(SsrPlain(node, cipher, password)));
  }

  type RustString = s: string | IsUtf8(s) witness ""

  /** The link builders of the other protocols. */
  type OtherPrinter = ProxyNode -> Printed<RustString>

  function ShareUri(other: OtherPrinter, node: ProxyNode): (r: Printed<string>)
    requires IsRustNode(node)
    ensures r.Ok? ==> IsUtf8(r.value)
  {
    match node.protocol
    case Ss =>
      assert SsUri(node).Ok? ==> IsUtf8(SsUri(node).value) by {
        if SsUri(node).Ok? {
          SsUriUtf8(node);
        }
      }
      SsUri(node)
    case Ssr =>
      assert SsrUri(node).Ok? ==> IsUtf8(SsrUri(node).value) by {
        if SsrUri(node).Ok? {
          SsrUriUtf8(node);
        }
      }
      SsrUri(node)
    case OtherProtocol(_) => other(node)
  }

  /** One line per node, in order; the first node that cannot be printed decides the error. */
  function ShareUris(other: OtherPrinter, nodes: seq<ProxyNode>): (r: Printed<seq<string>>)
    requires AllRustNodes(nodes)
    ensures r.Ok? ==> |r.value| == |nodes| && forall i :: 0 <= i < |nodes| ==>
      IsUtf8(r.value[i]) && ShareUri(other, nodes[i]) == Ok(r.value[i])
    ensures r.Err? ==> exists i :: 0 <= i < |nodes| && ShareUri(other, nodes[i]) == Err(r.error)
  {
    if nodes == [] then Ok([])
    else
      match ShareUri(other, nodes[0])
      case Err(error) => Err(error)
      case Ok(line) =>
        match ShareUris(other, nodes[1..])
        case Err(error) =>
          assert forall i :: 0 <= i < |nodes| - 1 ==> nodes[1..][i] == nodes[i + 1];
          Err(error)
        case Ok(lines) => Ok([line] + lines)
  }

  function Subscription(other: OtherPrinter, nodes: seq<ProxyNode>): Printed<string>
    requires AllRustNodes(nodes)
  {
    match ShareUris(other, nodes)
    case Err(error) => Err(error)
    case Ok(lines) =>
      JoinUtf8(lines, '\n');
      Ok(Base64.Encode(Base64.STANDARD, Join(lines, '\n')))
  }

  /** `Base64Transformer::transform` */
  method Transform(other: OtherPrinter, nodes: seq<ProxyNode>) returns (r: Printed<string>)
    requires AllRustNodes(nodes)
    ensures r == Subscription(other, nodes)
  {
    hide IsUtf8, ShareUri, IsRustNode;
    var uriLines: seq<string> := [];
    assert nodes[0..] == nodes;
    assert forall lines: seq<string> :: uriLines + lines == lines;
    for i := 0 to |nodes|
      invariant |uriLines| == i
      invariant forall j :: 0 <= j < i ==> IsUtf8(uriLines[j])
      invariant ShareUris(other, nodes) ==
        match ShareUris(other, nodes[i..])
        case Err(error) => Err(error)
        case Ok(lines) => Ok(uriLines + lines)
    {
      assert nodes[i..][0] == nodes[i];
      assert nodes[i..][1..] == nodes[i + 1..];
      var line := ShareUri(other, nodes[i]);
      if line.Err? {
        return Err(line.error);
      }
      assert forall lines: seq<string> :: uriLines + ([line.value] + lines) == (uriLines + [line.value]) + lines;
      uriLines := uriLines + [line.value];
    }
    assert uriLines + [] == uriLines;
    JoinUtf8(uriLines, '\n');
    var merged := Join(uriLines, '\n');
    r := Ok(Base64.Encode(Base64.STANDARD, merged));
  }
}
