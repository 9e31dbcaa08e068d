/** The subscription parser: payload normalization, line splitting and the ss:// and ssr:// parsers. */
module UriParser {
  import opened Text
  import opened ShareLinks
  import Base64
  import Percent

  // ---------------------------------------------------------------- common.rs

  function SplitFragment(raw: string): (string, Option<string>) {
    match SplitOnce(raw, "#")
    case Some((value, fragment)) => (value, Some(Percent.DecodeComponent(fragment)))
    case None => (raw, None)
  }

  /** `parse_host_port`; None stands for every parse error. */
  function ParseHostPort(raw: string): Option<(string, nat)> {
    if StartsWith(raw, "[") then
      match SplitOnce(raw[1..], "]")
      case None => None
      case Some((host, remainder)) =>
        if !StartsWith(remainder, ":") then None
        else
          match ParseU16(remainder[1..])
          case None => None
          case Some(port) => Some((host, port))
    else
      match RSplitOnce(raw, ':')
      case None => None
      case Some((host, digits)) =>
        match ParseU16(digits)
        case None => None
        case Some(port) => Some((host, port))
  }

  // ---------------------------------------------------------------- ss.rs

  function SsNode(name: string, server: string, port: nat, cipher: string, password: string): ProxyNode {
    ProxyNode(name, Ss, server, port, map["cipher" := Str(cipher), "password" := Str(password)])
  }

  /** The credential and host parts: around the last '@', or inside one base64 text. */
  function SplitSsAuthority(text: string): Option<(string, string)> {
    match RSplitOnce(text, '@')
    case Some(parts) => Some(parts)
    case None =>
      match Base64.TryDecodeText(text)
      case None => None
      case Some(decoded) => RSplitOnce(decoded, '@')
  }

  /** `parse_ss_uri` */
  function ParseSs(line: string): Option<ProxyNode>
    requires StartsWith(line, "ss://")
  {
    var (withoutFragment, name) := SplitFragment(line[|"ss://"|..]);
    match SplitSsAuthority(Split(withoutFragment, '?')[0])
    case None => None
    case Some((credentialPart, hostPart)) =>
      match SplitOnce(Base64.TryDecodeText(credentialPart).GetOr(credentialPart), ":")
      case None => None
      case Some((cipher, password)) =>
        match ParseHostPort(hostPart)
        case None => None
        case Some((server, port)) =>
          Some(SsNode(name.GetOr("ss-" + server + ":" + Decimal(port)), server, port, cipher, password))
  }

  // ---------------------------------------------------------------- ssr.rs

  /** What the query pairs may change: the name and the optional parameters. */
  datatype SsrSettings = SsrSettings(name: string, extra: map<string, Json>)

  function SsrParamValue(raw: string): Option<string> {
    var value := match Base64.TryDecodeText(raw)
      case Some(text) => Some(Percent.DecodeComponent(text))
      case None => if raw == "" then None else Some(Percent.DecodeComponent(raw));
    if value == Some("") then None else value
  }

  function ApplySsrPair(settings: SsrSettings, pair: string): SsrSettings {
    match SplitOnce(pair, "=")
    case None => settings
    case Some((key, raw)) =>
      match SsrParamValue(raw)
      case None => settings
      case Some(value) =>
        if key == "remarks" then settings.(name := value)
        else if key == "obfsparam" then settings.(extra := settings.extra["obfs_param" := Str(value)])
        else if key == "protoparam" then settings.(extra := settings.extra["protocol_param" := Str(value)])
        else settings
  }

  function ApplySsrPairs(settings: SsrSettings, pairs: seq<string>): SsrSettings
    decreases |pairs|
  {
    if pairs == [] then settings else ApplySsrPairs(ApplySsrPair(settings, pairs[0]), pairs[1..])
  }

  lemma {:induction false} ApplySsrPairsSnoc(settings: SsrSettings, pairs: seq<string>, pair: string)
    ensures ApplySsrPairs(settings, pairs + [pair]) == ApplySsrPair(ApplySsrPairs(settings, pairs), pair)
    decreases |pairs|
  {
    hide ApplySsrPair;
    if pairs == [] {
    } else {
      assert (pairs + [pair])[0] == pairs[0] && (pairs + [pair])[1..] == pairs[1..] + [pair];
      ApplySsrPairsSnoc(ApplySsrPair(settings, pairs[0]), pairs[1..], pair);
    }
  }

  function SsrBaseExtra(cipher: string, password: string, protocol: string, obfs: string): map<string, Json> {
    map["cipher" := Str(cipher), "password" := Str(password), "protocol" := Str(protocol), "obfs" := Str(obfs)]
  }

  function SsrDefaultName(server: string, port: nat): string {
    "ssr-" + server + ":" + Decimal(port)
  }

  /** The six leading segments; further segments are ignored. */
  function ParseSsrHead(segments: seq<string>): Option<(string, nat, SsrSettings)> {
    if |segments| < 6 || segments[0] == "" || ParseU16(segments[1]).None? || segments[2] == "" || segments[3] == ""
       || segments[4] == "" || segments[5] == ""
    then None
    else
      var (server, port) := (segments[0], ParseU16(segments[1]).value);
      match Base64.TryDecodeText(segments[5])
      case None => None
      case Some(password) =>
        Some((server, port, SsrSettings(SsrDefaultName(server, port),
                                        SsrBaseExtra(segments[3], password, segments[2], segments[4]))))
  }

  function SsrHeadAndQuery(decoded: string): (string, string) {
    match SplitOnce(decoded, "/?")
    case Some(parts) => parts
    case None => (decoded, "")
  }

  function ParseSsrText(decoded: string): Option<ProxyNode> {
    var (head, query) := SsrHeadAndQuery(decoded);
    match ParseSsrHead(Split(head, ':'))
    case None => None
    case Some((server, port, base)) =>
      var settings := if query == "" then base else ApplySsrPairs(base, Split(query, '&'));
      Some(ProxyNode(settings.name, Ssr, server, port, settings.extra))
  }

  /** The specification of `parse_ssr_uri` */
  function ParseSsr(line: string): Option<ProxyNode>
    requires StartsWith(line, "ssr://")
  {
    match Base64.TryDecodeText(Trim(line[|"ssr://"|..]))
    case None => None
    case Some(decoded) => ParseSsrText(decoded)
  }

  /** The loop over the query pairs */
  method ApplyPairs(base: SsrSettings, pairs: seq<string>) returns (settings: SsrSettings)
    ensures settings == ApplySsrPairs(base, pairs)
  {
    hide ApplySsrPair;
    settings := base;
    for i := 0 to |pairs|
      invariant settings == ApplySsrPairs(base, pairs[..i])
    {
      ApplySsrPairsSnoc(base, pairs[..i], pairs[i]);
      assert pairs[..i + 1] == pairs[..i] + [pairs[i]];
      settings := ApplySsrPair(settings, pairs[i]);
    }
    assert pairs[..|pairs|] == pairs;
  }

  /** `parse_ssr_uri`: a loop over the query pairs updates the name and the extra map. */
  method ParseSsrUri(line: string) returns (r: Option<ProxyNode>)
    requires StartsWith(line, "ssr://")
    ensures r == ParseSsr(line)
  {
    hide Base64.TryDecodeText, ApplySsrPair, ApplySsrPairs, ParseSsrHead, SsrHeadAndQuery, Trim, Split;
    var decoded := Base64.TryDecodeText(Trim(line[|"ssr://"|..]));
    if decoded.None? {
      return None;
    }
    var (head, query) := SsrHeadAndQuery(decoded.value);
    var base := ParseSsrHead(Split(head, ':'));
    if base.None? {
      return None;
    }
    var (server, port, settings) := base.value;
    if query != "" {
      settings := ApplyPairs(settings, Split(query, '&'));
    }
    r := Some(ProxyNode(settings.name, Ssr, server, port, settings.extra));
  }

  // ---------------------------------------------------------------- mod.rs

  const SCHEMES := [
    "ss://", "ssr://", "vmess://", "vless://", "trojan://", "hysteria2://", "tuic://", "anytls://",
    "wireguard://", "socks5://", "socks5+tls://", "http://", "https://"]

  /** What is modelled elsewhere: the parsers of the other protocols and of non-URI payloads. */
  datatype Externals = Externals(
    parseOther: string -> Option<ProxyNode>,
    looksNonUri: string -> bool,
    parseNonUri: string -> Option<seq<ProxyNode>>)

  /** `str::lines`: pieces between line feeds, without the final empty one and without a carriage return before a line feed. */
  function Lines(s: string): seq<string> {
    var pieces := Split(s, '\n');
    var init := seq(|pieces| - 1, i requires 0 <= i < |pieces| - 1 => DropCarriageReturn(pieces[i]));
    if pieces[|pieces| - 1] == "" then init else init + [pieces[|pieces| - 1]]
  }

  /** U+FEFF as bytes */
  const BYTE_ORDER_MARK := "\U{EF}\U{BB}\U{BF}"

  function DropByteOrderMarks(s: string): string
    decreases |s|
  {
    if StartsWith(s, BYTE_ORDER_MARK) then DropByteOrderMarks(s[|BYTE_ORDER_MARK|..]) else s
  }

  predicate IsSupportedUri(line: string) {
    exists i :: 0 <= i < |SCHEMES| && StartsWith(line, SCHEMES[i])
  }

  predicate IsUriLine(rawLine: string) {
    var line := DropByteOrderMarks(Trim(rawLine));
    line != "" && !StartsWith(line, "#") && IsSupportedUri(line)
  }

  predicate LooksLikeUriList(payload: string) {
    exists i :: 0 <= i < |Lines(payload)| && IsUriLine(Lines(payload)[i])
  }

  predicate IsAsciiWhitespace(c: char) {
    c == ' ' || c == '\t' || c == '\n' || c == '\r' || c as int == 12
  }

  function Compact(s: string): string {
    if s == "" then ""
    else if IsAsciiWhitespace(s[0]) then Compact(s[1..])
    else [s[0]] + Compact(s[1..])
  }

  /** `normalize_subscription_payload` */
  function Normalize(ext: Externals, payload: string): string {
    var trimmed := Trim(payload);
    if trimmed == "" then ""
    else if LooksLikeUriList(trimmed) then trimmed
    else
      match Base64.TryDecodeText(Compact(trimmed))
      case None => trimmed
      case Some(decoded) =>
        var text := Trim(decoded);
        if LooksLikeUriList(text) || ext.looksNonUri(text) then text else trimmed
  }

  /** `parse_proxy_uri_line` */
  function ParseLine(ext: Externals, line: string): Option<ProxyNode> {
    if StartsWith(line, "ss://") then ParseSs(line)
    else if StartsWith(line, "ssr://") then ParseSsr(line)
    else if IsSupportedUri(line) then ext.parseOther(line)
    else None
  }

  /** Blank lines, comments and lines that do not parse are skipped. */
  function LineNodes(ext: Externals, rawLine: string): seq<ProxyNode> {
    var line := Trim(rawLine);
    if line == "" || StartsWith(line, "#") || ParseLine(ext, line).None? then []
    else [ParseLine(ext, line).value]
  }

  function LinesNodes(ext: Externals, lines: seq<string>): seq<ProxyNode> {
    if lines == [] then [] else LineNodes(ext, lines[0]) + LinesNodes(ext, lines[1..])
  }

  function ParseNonUri(ext: Externals, payload: string): Option<seq<ProxyNode>> {
    if Trim(payload) == "" then Some([]) else ext.parseNonUri(payload)
  }

  /** The specification of `UriListParser::parse` */
  function ParsePayload(ext: Externals, payload: string): Option<seq<ProxyNode>> {
    var normalized := Normalize(ext, payload);
    if !LooksLikeUriList(normalized) then ParseNonUri(ext, normalized)
    else Some(LinesNodes(ext, Lines(normalized)))
  }

  lemma {:induction false} LinesNodesSnoc(ext: Externals, lines: seq<string>, line: string)
    ensures LinesNodes(ext, lines + [line]) == LinesNodes(ext, lines) + LineNodes(ext, line)
    decreases |lines|
  {
    hide LineNodes;
    if lines == [] {
    } else {
      LinesNodesSnoc(ext, lines[1..], line);
      assert (lines + [line])[0] == lines[0] && (lines + [line])[1..] == lines[1..] + [line];
    }
  }

  /** The loop of `UriListParser::parse` */
  method ParseLines(ext: Externals, lines: seq<string>) returns (nodes: seq<ProxyNode>)
    ensures nodes == LinesNodes(ext, lines)
  {
    hide ParseLine, Trim, StartsWith;
    nodes := [];
    for i := 0 to |lines|
      invariant nodes == LinesNodes(ext, lines[..i])
    {
      LinesNodesSnoc(ext, lines[..i], lines[i]);
      assert lines[..i + 1] == lines[..i] + [lines[i]];
      var line := Trim(lines[i]);
      if line == "" || StartsWith(line, "#") {
        continue;
      }
      var node := ParseLine(ext, line);
      if node.Some? {
        nodes := nodes + [node.value];
      }
    }
    assert lines[..|lines|] == lines;
  }

  /** `UriListParser::parse` */
  method Parse(ext: Externals, payload: string) returns (r: Option<seq<ProxyNode>>)
    ensures r == ParsePayload(ext, payload)
  {
    var normalized := Normalize(ext, payload);
    if !LooksLikeUriList(normalized) {
      return ParseNonUri(ext, normalized);
    }
    var nodes := ParseLines(ext, Lines(normalized));
    r := Some(nodes);
  }
}
