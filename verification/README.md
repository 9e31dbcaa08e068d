# SubForge kernels in Dafny

SubForge collects proxy nodes from subscription sources, merges them and exports them for several
clients. This project models the kernels under its input and output and proves what they promise.
`dafny verify dfyconfig.toml` checks everything; each file is one module.

| module | models |
|---|---|
| Text | Rust strings as byte strings (one `char` per byte, UTF-8 validity as a predicate), trimming, splitting, decimal numbers |
| Utf8, Base64, Percent | UTF-8 and white space by code points, the four base64 engines of RFC 4648 and the percent coder of RFC 3986, written out, with lossy UTF-8 conversion |
| ShareLinks, UriParser | the subscription printer and the subscription parser for ss:// and ssr:// |
| LinkRoundTrip, SubscriptionRoundTrip | when a printed link, and a whole printed subscription, parses back |
| LinkForms, PayloadForms | what the parser makes of links and payloads that the printer does not print |
| KeyWindows, RateLimiter, AuthFailures | the two timed state machines with windows, periodic cleanup, eviction and cooldowns |
| RefreshJobs, RefreshEngine | the `refresh_jobs` table, the guard registry and `refresh_source` on both |
| RefreshProtocol, RefreshOutcomes | the refresh protocol as interleaved events of many tasks, with panics, crashes and restarts: its safety, and what becomes of rows when any update may fail |
| EventStream, EventBlocks | the incremental parser of the desktop event bridge, and the events it emits for well-formed blocks |
| TemplateGroups, SingboxConfig | template expansion of the Clash and sing-box builders, and the assembled sing-box outbounds |
| Dedupe, NameConflicts, Aggregation | merging nodes: deduplication by an index map, renaming in place, and both together |
| PluginInstall, SourceUpdate | changes to several resources with compensation, where any step may fail |
| SecretStores, ExportTokens | the keyring store against the memory store, and export tokens with grace periods and purging |

Where the program changes state step by step, the model is a class, a loop or an array algorithm
proved against a specification function, and the lemmas are about that function. Times are
integers (nanoseconds for `Instant`, seconds for tokens); timestamps that the program compares as
strings are integers too, so their order is taken as the order of time. Clock readings, generated
tokens and job ids, and the failures of files, database and secret store are parameters.

Findings, each proved with an exact condition, a concrete run or both:

- Names after conflict resolution are not always unique, although the comment at line 47 of
  `region.rs` says so (NameConflicts.UniquenessFails, NameConflicts.ResolvedDistinctExactly).
- SSR links lose IPv6 hosts and decode names and parameters once too often
  (LinkRoundTrip.SsrRoundTrip, LinkRoundTrip.SsrIpv6Lost, LinkRoundTrip.EscapedNameLost).
- A plain subscription behind a byte order mark loses its first link (PayloadForms.MarkLosesFirstLine).
- The takeover's result is ignored in `refresh_source`; when it fails after a cancelled refresh, a
  source has two running rows (RefreshProtocol.IgnoredTakeoverDoublesRows).
- `mark_success` has no status guard, so a failed row can become successful: exactly when the
  handler of an aborted refresh fails the row of a later one that is still under way
  (RefreshProtocol.FailedRowCanSucceed, RefreshOutcomes.FinalThroughoutExactly).
- A cancelled refresh, or one whose final update fails, can leave a running row that nobody owns
  (RefreshProtocol.CancelledLeavesRow, RefreshOutcomes.StepKeepsOwnedExactly).
- A rate-limit window longer than the stale time of 300 s is forgotten by the cleanup
  (RateLimiter.InvisibleExactly).
- A character cut by a network chunk is replaced in pieces; the stream's text survives exactly when
  every chunk is valid UTF-8 by itself (EventStream.CutCharacterIsVisible, EventStream.LossyConcatExactly).
- The two template builders disagree exactly when a candidate node is named like a built-in policy in another
  spelling (TemplateGroups.ExpansionsAgreeExactly, TemplateGroups.RejectNodeDisagrees).
- The key `__keys__` is accepted by both secret stores but corrupts the keyring's index
  (SecretStores.ReservedGetGivesIndexAway and the other SecretStores.Reserved lemmas).
- A configured token that is still stored as retired is refused, even after it has expired, because
  the purge comes after the insert (ExportTokens.ConfigureSucceedsExactly, ExportTokens.ExpiredTokenRefused).

## Model

| member | source | states |
|---|---|---|
| SubscriptionRoundTrip.SubscriptionRoundTrip | crates/app-core/src/parser/mod.rs:41-94 | End to end: for every list of printable SS and SSR nodes, printing succeeds, and parsing the printed base64 subscription returns the same nodes in the same order (fields as the printer reads them: trimmed, defaults filled in) if and only if every node meets its protocol's condition below. Nothing is assumed of the other protocols or of the detection of non-URI payloads. |
| SubscriptionRoundTrip.LinksReadBack | crates/app-core/src/parser/mod.rs:49-67 | Line by line, a list of printed links parses to the list of its nodes exactly when each link reads back; one lost or changed link is never compensated by another. |
| SubscriptionRoundTrip.LinkReadsBack | crates/app-core/src/parser/mod.rs:165-175 | The parser's scheme dispatch gives a printed line at most one node, and that node is the printed one exactly under the protocol's condition. |
| SubscriptionRoundTrip.PayloadNormalizes | crates/app-core/src/parser/mod.rs:73-94 | Base64 around joined links is recognised and removed whatever the links are: the encoded text never looks like a URI list itself, has no white space to lose, and the decoded text is kept unchanged by trimming. |
| SubscriptionRoundTrip.PayloadLines | crates/app-core/src/parser/mod.rs:41-70 | Parsing a printed payload visits exactly the printed lines, in order. |
| SubscriptionRoundTrip.EncodedIsNoUriList | crates/app-core/src/parser/mod.rs:96-121 | No colon-free text of visible ASCII can be mistaken for a URI list. |
| SubscriptionRoundTrip.LinesOfJoined | crates/app-core/src/parser/mod.rs:50 | Splitting joined links into lines gives back the links: none holds a line break or ends in a carriage return. |
| SubscriptionRoundTrip.PrintedLinks | crates/app-transform/src/base64.rs:16-24 | Printing a list of printable nodes succeeds with one well-formed line per node, in order. |
| SubscriptionRoundTrip.LinkIsWellShaped | crates/app-transform/src/base64.rs:51-113 | A printed SS or SSR link starts with its scheme, holds no line feed and ends in a visible ASCII character. |
| SubscriptionRoundTrip.EmptyPayload | crates/app-core/src/parser/mod.rs:73-77 | The empty payload parses to no nodes, so the empty list round trips too. |
| PayloadForms.PlainRoundTrip | crates/app-core/src/parser/mod.rs:78-80 | A subscription that is not base64-encoded round trips under the same condition: the joined printed links parse to the same nodes if and only if every node meets it. |
| PayloadForms.PlainListParses | crates/app-core/src/parser/mod.rs:41-80 | Every payload that looks like a URI list once trimmed is parsed line by line, as it is. |
| PayloadForms.EncodedListParses | crates/app-core/src/parser/mod.rs:82-92 | A payload that is base64 of a URI list, in any of the four variants and with white space anywhere in it, is parsed as the lines of the trimmed text inside. |
| PayloadForms.EncodedOtherParses | crates/app-core/src/parser/mod.rs:82-94 | If the text inside is no URI list, the text goes to the other formats when it looks like one of them, and the payload itself otherwise. |
| PayloadForms.OtherPayloadParses | crates/app-core/src/parser/mod.rs:73-94 | A payload that is neither a list nor base64 in any variant goes, trimmed, to the other formats; a blank one has no nodes. |
| PayloadForms.LineExactly | crates/app-core/src/parser/mod.rs:165-207 | A line yields the node of its scheme's parser, and nothing if that parser fails or the scheme is not one of the thirteen. |
| PayloadForms.SupportedExactly | crates/app-core/src/parser/mod.rs:103-121 | The thirteen schemes that count as a proxy URI. |
| PayloadForms.CompactExactly | crates/app-core/src/parser/mod.rs:82-85 | Exactly the ASCII white space is dropped before decoding. |
| PayloadForms.CrLfLines | crates/app-core/src/parser/mod.rs:50 | Lines that end in a carriage return and a line feed are the same lines. |
| PayloadForms.MarkLosesFirstLine | crates/app-core/src/parser/mod.rs:50-57 | A plain list behind a byte order mark loses its first link, for every list: the mark is overlooked when the payload is classified, but not when the line is parsed. |
| LinkForms.EncodedCredential | crates/app-core/src/parser/ss.rs:11-55 | An ss:// link with its credential in any base64 variant, with or without query and fragment: the query is dropped, a missing fragment gives the default name. |
| LinkForms.WholeEncoded | crates/app-core/src/parser/ss.rs:21-28 | The older ss:// form, with credential and host inside one base64 text, gives the same node. |
| LinkForms.PlainCredential | crates/app-core/src/parser/ss.rs:30-31 | A credential that is no base64 text is taken as it stands. |
| LinkForms.NoHostNoNode | crates/app-core/src/parser/ss.rs:21-28 | Without an '@', in the link or in the text it encodes, there is no node. |
| LinkForms.HeadOnly | crates/app-core/src/parser/ssr.rs:20-22 | An SSR text without "/?" is all head: default name and no parameters. |
| LinkForms.HeadExactly | crates/app-core/src/parser/ssr.rs:23-64 | Which SSR heads are accepted, segment by segment, and what they give; segments after the sixth are ignored. |
| LinkForms.RawParameter | crates/app-core/src/parser/ssr.rs:71-80 | A query value that is not base64 is percent-decoded as it stands. |
| LinkForms.IgnoredPairs | crates/app-core/src/parser/ssr.rs:67-99 | Pairs without an equals sign, with an unknown key or with an empty value change nothing. |
| LinkForms.PortExactly | crates/app-core/src/parser/common.rs:63-67 | A port is an optional plus sign, any zeros and the decimal of a 16-bit number; no other text is one. |
| LinkForms.NoHostPort | crates/app-core/src/parser/common.rs:58-78 | A bracket without its closing one, one without a colon behind it, and a text without a colon are no host and port. |
| LinkForms.BracketedHostReadsBack | crates/app-core/src/parser/common.rs:59-69 | A host that is printed in brackets of its own reads back without them. |
| LinkForms.PrintErrorExactly | crates/app-transform/src/base64.rs:51-70 | An SS or SSR node is not printed exactly when its cipher or password is missing, and the error names the cipher first. |
| LinkForms.FirstErrorDecides | crates/app-transform/src/base64.rs:17-20 | The first node that cannot be printed decides the error of the whole list. |
| LinkForms.CanonicalFields | crates/app-transform/src/base64.rs:65-107 | Every field of the node that an SSR link is compared with: the printed one trimmed, protocol "origin" and obfs "plain" where they are missing, parameters only where they are present. |
| LinkForms.OptionalStringExactly | crates/app-transform/src/shared.rs:29-41 | An optional field is read exactly when it is a text that is not all white, and then without the white space around it, all of it. |
| LinkRoundTrip.SsRoundTrip | crates/app-core/src/parser/ss.rs:11-55 | A printed ss:// link with a delimiter-free host (IPv6 included) parses back to name, host, port, cipher and password if and only if the cipher holds no ':'. |
| LinkRoundTrip.ParsePrintedSs | crates/app-core/src/parser/ss.rs:11-55 | For any credential text, the printed link parses to the credential split at its first colon with the printed name, host and port, and fails when there is no colon. |
| LinkRoundTrip.SsrRoundTrip | crates/app-core/src/parser/ssr.rs:11-117 | A printed ssr:// link parses back to its node if and only if the host is non-empty, no segment holds a ':' or a "/?", and name and parameters are non-empty fixed points of the percent-decoder. |
| LinkRoundTrip.ParsePrintedSsrText | crates/app-core/src/parser/ssr.rs:20-117 | What a well-segmented SSR node parses back to when its name and parameters are not stable: each is percent-decoded once more, and an empty name becomes the default name. |
| LinkRoundTrip.HiddenQueryFails | crates/app-core/src/parser/ssr.rs:20-53 | A "/?" inside a segment ends the head early and the link is rejected for missing segments. |
| LinkRoundTrip.SsrIpv6Lost | crates/app-transform/src/base64.rs:90-98 | The printer brackets an IPv6 host and the SSR parser splits it at its colons: such a node never reads back. |
| LinkRoundTrip.EscapedNameLost | crates/app-core/src/parser/ssr.rs:71-87 | A concrete loss: a node named "%41" comes back with another name. |
| LinkRoundTrip.ParsedSsrIsSegmented | crates/app-core/src/parser/ssr.rs:20-64 | Whatever the text, a parsed SSR node has a non-empty host, and host, protocol, cipher and obfs hold no ':'. |
| LinkRoundTrip.SsrQueryApplies | crates/app-core/src/parser/ssr.rs:66-101 | The loop over the printed query pairs sets exactly the name and the two parameters, each decoded, and nothing else. |
| LinkRoundTrip.SsrQuerySplits | crates/app-transform/src/base64.rs:72-107 | The printed query splits at its ampersands into exactly the printed pairs. |
| LinkRoundTrip.SsrLinkDecodes | crates/app-core/src/parser/ssr.rs:16-18 | Trimming and four-engine decoding of a printed SSR link recover exactly the printed plain text. |
| LinkRoundTrip.ImageIsCanonical | crates/app-core/src/parser/ssr.rs:71-80 | The parsed node is the printed one exactly when its name and parameters are non-empty and percent-decode to themselves. |
| LinkRoundTrip.HostPortRoundTrip | crates/app-core/src/parser/common.rs:58-78 | `parse_host_port` undoes `format_host` and the printed port for every delimiter-free host, bracketed or not, and every 16-bit port. |
| LinkRoundTrip.BracketedHostPort | crates/app-core/src/parser/common.rs:59-69 | A bracketed host parses to its inside for every text without a closing bracket; the only failure left is a bad port. |
| LinkRoundTrip.BareHostPort | crates/app-core/src/parser/common.rs:71-77 | A bare host is everything before the last colon, whatever colons it holds. |
| Base64.DecodeExactly | crates/app-core/src/parser/base64.rs:7-21 | Each of the four engines accepts exactly its own canonical encodings: decoding yields a byte string if and only if the text is that engine's encoding of it (alphabets, padding and zero trailing bits as in sections 3.2, 3.5, 4 and 5 of RFC 4648). |
| Base64.EnginesAgree | crates/app-core/src/parser/base64.rs:8-13 | Two engines that both accept a text decode it to the same bytes. |
| Base64.TryDecodeExactly | crates/app-core/src/parser/base64.rs:7-21 | The first success among the four engines is a text if and only if that text is valid UTF-8 and the input is one of its four encodings; the order of the engines never matters. |
| Base64.TryDecodeEncoded | crates/app-core/src/parser/base64.rs:7-21 | Four-engine decoding of any engine's encoding of a UTF-8 text returns exactly that text. |
| Base64.TryDecodeSound | crates/app-core/src/parser/base64.rs:14-17 | Whatever is returned is valid UTF-8 and re-encodes to the input with one of the engines. |
| Base64.OctetsOfSextets | crates/app-transform/src/base64.rs:23 | Regrouping bytes into sextets and back is the identity. |
| Base64.SextetsOfOctets | crates/app-core/src/parser/base64.rs:14 | A sextet sequence that regroups into bytes is the canonical one for these bytes. |
| Base64.DecodeEncoded | crates/app-transform/src/base64.rs:55 | Every engine decodes its own output. |
| Base64.EncodeDecoded | crates/app-core/src/parser/base64.rs:14 | Re-encoding what an engine accepted restores the accepted text, padding included. |
| Base64.EncodedAlphabet | crates/app-transform/src/base64.rs:55 | Encoded text holds no URI delimiter, percent sign or bracket; the URL-safe form holds no '/' or '+', and only padded engines emit '='. |
| Base64.AlphabetTable | crates/app-transform/src/base64.rs:23 | The two alphabets of RFC 4648, written out. |
| Base64.EncodeGroup | crates/app-transform/src/base64.rs:23 | Three bytes and four symbols are encoded group by group; with Base64.OneNumber, each group is one 24-bit number. |
| Base64.EncodeEnd | crates/app-transform/src/base64.rs:23 | One or two bytes at the end count as followed by zeros, padded or not. |
| Percent.DecodeEncoded | crates/app-core/src/parser/common.rs:18-47 | `decode_percent_encoded` undoes `percent_encode_component` on every valid UTF-8 string (sections 2.1 and 2.3 of RFC 3986). |
| Percent.EncodeIsWellEncoded | crates/app-transform/src/base64.rs:448-467 | Encoded text is a sequence of unreserved characters and of '%' followed by two hex digits, and nothing else. |
| Percent.EncodedAlphabet | crates/app-transform/src/base64.rs:448-460 | Encoded text therefore holds no line break and no reserved URI character. |
| Percent.EncodeComponent | crates/app-transform/src/base64.rs:448-460 | The byte loop computes the encoding. |
| Percent.DecodeLoop | crates/app-core/src/parser/common.rs:23-41 | The index loop with its skip by three decodes exactly the well-formed escapes and copies every other byte, a truncated or malformed escape included. |
| Percent.DecodePercentEncoded | crates/app-core/src/parser/common.rs:18-47 | The early return for texts without '%' and the fallback to lossy conversion together compute one function of the text. |
| Percent.HexRoundTrip | crates/app-core/src/parser/common.rs:49-56 | `hex_value` undoes `nibble_to_hex`. |
| Percent.LossyFixesExactlyUtf8 | crates/app-core/src/parser/common.rs:43-46 | Lossy conversion always yields valid UTF-8 and changes a byte string exactly when it is not valid UTF-8. |
| Percent.DecodeNonEmpty | crates/app-core/src/parser/ssr.rs:71-80 | Decoding empties no text, so the filter for empty values drops exactly the empty ones. |
| Percent.EscapeExactly | crates/app-core/src/parser/common.rs:23-41 | An escape stands for its byte, with each hex digit in either case. |
| Percent.PlainExactly | crates/app-core/src/parser/common.rs:28-40 | Every other byte stands for itself, a percent sign without two hex digits after it included. |
| Percent.HexDigitsOnly | crates/app-core/src/parser/common.rs:49-56 | The digits that `hex_value` accepts are exactly 0-9, A-F and a-f. |
| Utf8.Utf8Exactly | crates/app-core/src/parser/common.rs:43-46 | A byte string is valid UTF-8 exactly if it encodes a sequence of scalar values (section 3 of RFC 3629). |
| Utf8.TrimExactly | crates/app-transform/src/shared.rs:32 | Trimming takes white characters off both ends, and all of them. |
| Utf8.WhiteExactly | crates/app-transform/src/shared.rs:32 | The white characters are those with the Unicode property White_Space. |
| ShareLinks.BuildSsrQuery | crates/app-transform/src/base64.rs:72-88 | The pushed query pairs, each present exactly when its field is a non-blank string, in printing order with the remarks last. |
| ShareLinks.BuildSsrUri | crates/app-transform/src/base64.rs:65-113 | The buffer that `build_ssr_uri` fills is the base64 of head, mark and query; a missing cipher or password is the error, in that order. |
| ShareLinks.ShareUris | crates/app-transform/src/base64.rs:17-20 | One UTF-8 line per node in order, or the error of a node that cannot be printed. |
| ShareLinks.ShareUri | crates/app-transform/src/base64.rs:27-49 | A link that is printed is valid UTF-8, whatever the node. |
| ShareLinks.Transform | crates/app-transform/src/base64.rs:16-24 | The loop stops at the first node that cannot be printed and otherwise yields the encoded, line-joined links. |
| ShareLinks.OptionalString | crates/app-transform/src/shared.rs:29-41 | A present field is never blank: it is trimmed and non-empty. |
| UriParser.ParseSsrUri | crates/app-core/src/parser/ssr.rs:11-117 | The imperative parser (segments consumed one by one, then a loop over pairs updating name and map) computes the specification that the round-trip lemmas are about. |
| UriParser.ApplyPairs | crates/app-core/src/parser/ssr.rs:66-101 | The loop over the query pairs applies them one after the other to name and parameters. |
| UriParser.ParseLines | crates/app-core/src/parser/mod.rs:49-67 | The loop keeps exactly the nodes of the lines that are not blank, not comments and parse, in line order. |
| UriParser.Parse | crates/app-core/src/parser/mod.rs:41-71 | `UriListParser::parse` as a whole: normalisation, the choice between URI list and other payloads, and the line loop. |
| Text.SplitJoin | crates/app-core/src/parser/ssr.rs:23 | Splitting at a separator undoes joining when no piece holds it; used for lines, segments and query pairs. |
| Text.ParseDecimal | crates/app-core/src/parser/common.rs:63-67 | Parsing a printed port gives it back for every 16-bit value. |
| Text.TrimUtf8 | crates/app-transform/src/shared.rs:29-41 | Trimming Unicode white space from a byte string never breaks its UTF-8. |
| RateLimiter.WindowBound | crates/app-http-server/src/state/security_limits.rs:41-67 | On every run from the initial state with other keys and cleanups, a never-evicted key with one limit and a window of at most 300 s is allowed at most 2*limit-1 calls in any half-open interval one window long. |
| RateLimiter.WindowBoundIsTight | crates/app-http-server/src/state/security_limits.rs:56-66 | For every limit of at least 1 and every window from 2 ns to 300 s some run reaches 2*limit-1 allowed calls within one window length. |
| RateLimiter.RunKeepsBound | crates/app-http-server/src/state/security_limits.rs:41-67 | The invariant behind the bound: every step of any run keeps all allowed calls of the key within the bound. |
| RateLimiter.ZeroLimitAllowsNothing | crates/app-http-server/src/state/security_limits.rs:60-63 | With limit 0 the key is never allowed, on any run and for any window. |
| RateLimiter.AnswerExactly | crates/app-http-server/src/state/security_limits.rs:41-67 | On every run the next call on a never-evicted key is allowed if and only if a reference that knows only the allowed calls admits it: no window is open, or the open one is over or has room. So a refused call changes no later answer. |
| RateLimiter.RefusedMeansFull | crates/app-http-server/src/state/security_limits.rs:60-63 | A call is refused only if the full limit of calls has been allowed within the last window length. |
| RateLimiter.TableStaysSmall | crates/app-http-server/src/state/security_limits.rs:200-211 | On every run at most 8192 keys are tracked. |
| RateLimiter.CleanupForgetsStale | crates/app-http-server/src/state/security_limits.rs:167-179 | A cleanup that is due (30 s, or a full table) forgets a key if and only if it was not seen for 300 s. |
| RateLimiter.CallIsSeen | crates/app-http-server/src/state/security_limits.rs:51-67 | A call marks its key as seen, refused or not; other keys change only by cleanup and eviction. |
| RateLimiter.CleanupInvisible | crates/app-http-server/src/state/security_limits.rs:167-179 | While capacity eviction does not fire and windows are at most 300 s, the limiter with periodic cleanup answers every call of a run exactly like one that never forgets a key. |
| RateLimiter.InvisibleExactly | crates/app-http-server/src/state/security_limits.rs:175-178 | That holds for all runs with windows up to a length if and only if the length is at most 300 s. |
| RateLimiter.LongWindowForgotten | crates/app-http-server/src/state/security_limits.rs:175-178 | For every longer window a run of two calls tells the two limiters apart. |
| RateLimiter.Limiter.IsAllowed | crates/app-http-server/src/state/security_limits.rs:41-67 | The new table and the answer are those of the step function, and a key is only evicted when the table is full, in favour of a new key, and if it is a least recently seen one. |
| RateLimiter.Limiter.MaybeCleanup | crates/app-http-server/src/state/security_limits.rs:167-179 | Cleanup runs when 30 s have passed or the table is full, and then keeps exactly the keys seen less than 300 s ago. |
| KeyWindows.FindOldest | crates/app-http-server/src/state/security_limits.rs:200-226 | The scan shared by both tables finds a least recently seen key. |
| AuthFailures.CooldownHolds | crates/app-http-server/src/state/security_limits.rs:98-152 | While a key cools down, every check and failure on it answers true until the deadline, across all other calls and cleanups, unless it is reset or evicted; the deadline itself never moves. |
| AuthFailures.ThresholdRefuses | crates/app-http-server/src/state/security_limits.rs:144-151 | Whenever a recorded failure answers true, there is a later deadline up to which every further answer on that key is true. |
| AuthFailures.TrueMeansCooling | crates/app-http-server/src/state/security_limits.rs:118-152 | A failure answers true only when the key is left cooling down past the present. |
| AuthFailures.FailuresCounted | crates/app-http-server/src/state/security_limits.rs:128-151 | Below the threshold every failure is counted, across checks, other keys and cleanups that do not find the key stale, and all answers are false. |
| AuthFailures.FifthFailureRefused | crates/app-http-server/src/state/security_limits.rs:118-152 | Starting from a clear key (unknown, without failures, or with a cooldown that is over), the last failure is refused exactly when it is the fifth, and then for 60 s from its second clock reading. |
| AuthFailures.FirstFailureCounts | crates/app-http-server/src/state/security_limits.rs:128-144 | The first failure on a clear key answers false and counts one. |
| AuthFailures.ReachableIsValid | crates/app-http-server/src/state/security_limits.rs:97-165 | On every run stored failures are at most 4 and a key with a deadline has none. |
| AuthFailures.StepKeepsCooldown | crates/app-http-server/src/state/security_limits.rs:189-197 | Each single operation, cleanup included, keeps a running cooldown with its deadline. |
| AuthFailures.CheckExactly | crates/app-http-server/src/state/security_limits.rs:98-116 | A check answers true if and only if its key has a deadline still to come. |
| AuthFailures.OverAtDeadline | crates/app-http-server/src/state/security_limits.rs:107-115 | From the deadline on a check answers false and the old count is gone. |
| AuthFailures.OverForGood | crates/app-http-server/src/state/security_limits.rs:98-116 | From the deadline on every check on the key answers false, on every run without a new failure on it. |
| AuthFailures.ResetClears | crates/app-http-server/src/state/security_limits.rs:154-164 | A reset clears exactly its key, a full reset every key. |
| AuthFailures.CleanupForgetsStale | crates/app-http-server/src/state/security_limits.rs:181-198 | A cleanup that is due forgets a key if and only if it is not cooling down and was not seen for 300 s. |
| AuthFailures.OperationIsSeen | crates/app-http-server/src/state/security_limits.rs:98-152 | A check or failure marks a known key as seen, whatever the answer; other keys change only by cleanup and eviction, and a check never adds one. |
| AuthFailures.StepStaysSmall | crates/app-http-server/src/state/security_limits.rs:213-226 | The tracker never holds more than 8192 keys. |
| AuthFailures.Tracker.IsInCooldown | crates/app-http-server/src/state/security_limits.rs:98-116 | The updated table and the answer are those of the step function. |
| AuthFailures.Tracker.RecordFailure | crates/app-http-server/src/state/security_limits.rs:118-152 | The same for a failure; the second clock reading, not the first, sets the deadline, and only a least recently seen key is evicted. |
| AuthFailures.Tracker.ResetKey | crates/app-http-server/src/state/security_limits.rs:154-158 | Exactly the given key is forgotten. |
| AuthFailures.Tracker.ResetEverything | crates/app-http-server/src/state/security_limits.rs:160-164 | Every key is forgotten and the cleanup time stays. |
| AuthFailures.Tracker.MaybeCleanup | crates/app-http-server/src/state/security_limits.rs:181-198 | Cleanup keeps a key exactly when it is cooling down or was seen less than 300 s ago. |
| RefreshProtocol.ReachableIsSafe | crates/app-core/src/engine.rs:66-175 | In every reachable state, over any interleaving of tasks, early errors, panics, failed updates, crashes and restarts: at most one running row per source, registry equal to the sources of the live guards, one guard per source, and every row's columns fit its status. Assumes fresh job ids and takeover updates that succeed. |
| RefreshProtocol.StepKeepsInv | crates/app-core/src/engine.rs:66-175 | Every single event keeps the invariant, and no row goes back to running. |
| RefreshProtocol.RunKeepsInv | crates/app-core/src/engine.rs:66-175 | No row that has stopped is running again at the end of any run. |
| RefreshProtocol.StepKeepsGuards | crates/app-core/src/refresh_registry.rs:29-51 | Registry and guards match after every event even when takeover updates fail. |
| RefreshProtocol.InsertKeepsSingleExactly | crates/app-core/src/engine.rs:85-101 | Inserting a running row keeps "one running row per source" if and only if the source has none: the takeover is exactly what is needed. |
| RefreshProtocol.FinishStoresResult | crates/app-storage/src/repositories/refresh_job_repo.rs:37-78 | In the protocol, a finish whose update succeeds stores exactly its result in its own row, whatever stood there, and changes no other row. |
| RefreshProtocol.BulkUpdateFails | crates/app-storage/src/repositories/refresh_job_repo.rs:80-128 | A takeover, an aborted refresh's handler and a restart fail exactly the running rows in their reach. |
| RefreshProtocol.GrantedExactly | crates/app-core/src/refresh_registry.rs:29-42 | A request is granted if and only if no guard of its source is held. |
| RefreshProtocol.EndedTaskFreesSource | crates/app-core/src/refresh_registry.rs:45-51 | However a task ends, the next request for its source is granted. |
| RefreshProtocol.RowsOutlast | crates/app-core/src/refresh_registry.rs:29-51 | Acquiring and dropping guards changes no row; a crash loses every guard and task and no row. |
| RefreshProtocol.PanicExactly | crates/app-http-server/src/handlers/sources.rs:125-158 | A panic changes no row and leaves the source to a handler exactly if somebody waits for the task. |
| RefreshProtocol.DeletionExactly | migrations/V001__init_tables.sql:49-60 | Deleting a source deletes exactly its rows. |
| RefreshProtocol.FailedUpdateChangesNothing | crates/app-storage/src/repositories/refresh_job_repo.rs:37-128 | An update that fails changes no row. |
| RefreshProtocol.RestartRecovers | apps/core/src/bootstrap.rs:313-333 | The program serves again only after a successful recovery, and then no row runs. |
| RefreshOutcomes.FinalThroughoutExactly | crates/app-http-server/src/handlers/sources.rs:136-158 | Stopped rows are final all along a run, whatever updates fail, if and only if no late handler hits a later refresh on it: no event that can happen next at any point changes a stopped row, short of deleting it. |
| RefreshOutcomes.ReachableFinalExactly | crates/app-core/src/engine.rs:66-175 | The same from the start of the program on, over any interleaving with panics, crashes, restarts and failing updates. |
| RefreshOutcomes.FinalExactly | crates/app-storage/src/repositories/refresh_job_repo.rs:37-78 | In any reachable state, stopped rows are final if and only if every inserting task's row still runs. |
| RefreshOutcomes.StepKeepsLiveExactly | crates/app-http-server/src/handlers/sources.rs:138-150 | One step leaves every inserting task's row running if and only if it is not a late hit, that is a handler failing the row of a refresh that is still under way. |
| RefreshOutcomes.LateHitRevives | crates/app-storage/src/repositories/refresh_job_repo.rs:37-56 | After any late hit the row has failed, its own task can still finish, and finishing makes the failed row successful. |
| RefreshOutcomes.StoppedRowsFinal | crates/app-storage/src/repositories/refresh_job_repo.rs:37-128 | On a run without a late hit a stopped row ends with all its columns as they were, unless its source has been deleted; it never runs again. |
| RefreshOutcomes.OwnedThroughoutExactly | crates/app-http-server/src/handlers/sources.rs:125-158 | Every running row has an owner (its live task, or a handler about to fail it) all along a run if and only if no event on it orphans a row. |
| RefreshOutcomes.ReachableOwnedExactly | crates/app-core/src/engine.rs:136-173 | The same from the start of the program on. |
| RefreshOutcomes.StepKeepsOwnedExactly | crates/app-http-server/src/handlers/sources.rs:136-158 | One step leaves no running row without an owner if and only if it is none of these: an unhandled panic or a failed finish of a task that alone owns its running row, or the failing update of a source's last handler while a row of it runs that no live task owns. |
| RefreshOutcomes.SingleThroughoutExactly | crates/app-core/src/engine.rs:85-101 | A source has at most one running row all along a run, failing takeovers included, if and only if no insert on it meets a running row of its source. |
| RefreshOutcomes.RunKeepsGuarded | crates/app-core/src/refresh_registry.rs:29-51 | What no failing update can break: registry and guards match, row ids are used once, and a task's row is its own source's. |
| RefreshOutcomes.CancelOrphans | crates/app-core/src/engine.rs:71-101 | The concrete cancelled refresh is an instance: cancelling after the insert orphans the row. |
| RefreshOutcomes.LateHandlerHits | crates/app-http-server/src/handlers/sources.rs:138-150 | The concrete late handler is an instance of a late hit. |
| RefreshEngine.RefreshSource | crates/app-core/src/engine.rs:66-175 | Run without interference, `refresh_source` acts on the job table and the registry exactly as a run of protocol events that leaves no guard and no task. It refreshes exactly when the source is free and exists, everything loads and no statement whose result is used fails. A successful refresh leaves its row successful with the reported count, a failed one leaves it failed with the reported error and no count, running rows of the source taken over become failed, and no other row changes. |
| RefreshEngine.FinishRun | crates/app-core/src/engine.rs:66-175 | The five events of a full refresh are enabled in turn and amount to takeover, insert and finish on the table, with registry and tasks as before. |
| RefreshProtocol.IgnoredTakeoverDoublesRows | crates/app-core/src/engine.rs:85-90 | A concrete run: the takeover's result is ignored, and when it fails after a cancelled refresh a source has two running rows. |
| RefreshProtocol.CancelledLeavesRow | crates/app-core/src/engine.rs:71-101 | A concrete run: a refresh cancelled after its insert drops its guard and leaves its running row. |
| RefreshProtocol.FailedRowCanSucceed | crates/app-storage/src/repositories/refresh_job_repo.rs:37-56 | A concrete run: the late handler of a panicked refresh fails the next refresh's row, which then becomes successful, since `mark_success` does not look at the status. |
| RefreshProtocol.LatePanicReached | crates/app-http-server/src/handlers/sources.rs:138-150 | The starting state of that run is reached by an acquire and a panic. |
| RefreshJobs.JobTable.Insert | crates/app-storage/src/repositories/refresh_job_repo.rs:15-35 | A row is added, as running and without finish time, count or error, exactly when its id is new and its source exists (foreign key of the table); every other row is unchanged. |
| RefreshJobs.JobTable.Succeed | crates/app-storage/src/repositories/refresh_job_repo.rs:37-56 | Whatever its status, the row with the id keeps its source and becomes successful with the given time and count and no error; every other row is unchanged, and the number of changed rows is 1 or 0. |
| RefreshJobs.JobTable.Fail | crates/app-storage/src/repositories/refresh_job_repo.rs:58-78 | Whatever its status, the row with the id keeps its source and becomes failed with the given time and error and no count; every other row is unchanged. |
| RefreshJobs.JobTable.FailRunningBySource | crates/app-storage/src/repositories/refresh_job_repo.rs:80-107 | Row by row: exactly the running rows of the source become failed, with the given time and error and no node count; no row is added, removed or otherwise changed, and the number of rows that differ afterwards is returned. |
| RefreshJobs.JobTable.FailAllRunning | crates/app-storage/src/repositories/refresh_job_repo.rs:109-128 | The same for the running rows of all sources, each keeping its source. |
| RefreshJobs.Registry.TryAcquire | crates/app-core/src/refresh_registry.rs:29-42 | A guard is given exactly when the source has none. |
| RefreshJobs.Registry.Release | crates/app-core/src/refresh_registry.rs:45-51 | Dropping a guard removes exactly its source. |
| EventStream.ChunkingIsInvisible | apps/desktop/src-tauri/src/desktop/core_manager_events.rs:120-184 | For every character stream and any two ways of cutting it, emitted events, pending event name, data lines and buffer are the same, and equal those of feeding the whole stream at once. |
| EventStream.ChunksAsOne | apps/desktop/src-tauri/src/desktop/core_manager_events.rs:125-184 | Without any assumption on the chunks, feeding them is feeding the concatenation of their lossy conversions. |
| EventStream.FeedTwice | apps/desktop/src-tauri/src/desktop/core_manager_events.rs:142-183 | Feeding two texts is feeding their concatenation, from any parser state. |
| EventStream.DrainHandlesLines | apps/desktop/src-tauri/src/desktop/core_manager_events.rs:144-183 | The find-and-cut loop handles exactly the pieces between line feeds, in order, and leaves the last piece in the buffer. |
| EventStream.CutsInvisibleExactly | apps/desktop/src-tauri/src/desktop/core_manager_events.rs:142-144 | For every stream that still waits for its first line feed, the parser state after the chunks is that of the uncut stream if and only if every chunk is valid UTF-8 by itself. |
| EventStream.LossyConcatExactly | apps/desktop/src-tauri/src/desktop/core_manager_events.rs:142 | For every stream, the text assembled from the chunks is the stream itself if and only if every chunk is valid UTF-8 by itself, that is, no cut falls inside a character. |
| EventStream.CutCharacterIsVisible | apps/desktop/src-tauri/src/desktop/core_manager_events.rs:142 | A concrete cut: the two bytes of one character in two chunks become two replacement characters. |
| EventBlocks.StreamEmitsEvents | apps/desktop/src-tauri/src/desktop/core_manager_events.rs:142-183 | For every sequence of blocks (an optional name, then data lines, then a blank line), the parser emits exactly one event per block, in order, with the trimmed name and the data lines joined by line feeds, keep-alives left out; and it ends as it started. |
| EventBlocks.ChunkedStreamEmitsEvents | apps/desktop/src-tauri/src/desktop/core_manager_events.rs:142-183 | The same however the stream is cut between characters. |
| EventBlocks.KeepaliveExactly | apps/desktop/src-tauri/src/desktop/core_manager_events.rs:155 | A keep-alive is the word in any case. |
| EventBlocks.IgnoredLines | apps/desktop/src-tauri/src/desktop/core_manager_events.rs:172-182 | A line that is neither blank nor an event or data line changes nothing. |
| EventBlocks.CarriageReturnIgnored | apps/desktop/src-tauri/src/desktop/core_manager_events.rs:146-149 | A carriage return at the end of a line changes nothing. |
| EventBlocks.BlankWithoutData | apps/desktop/src-tauri/src/desktop/core_manager_events.rs:152-170 | A blank line without data before it emits nothing and keeps the name for the next event. |
| EventStream.Bridge.Handle | apps/desktop/src-tauri/src/desktop/core_manager_events.rs:145-182 | The branch chain for one line (blank, comment, event, data) computes the line function; keep-alive data is dropped and clears the state all the same. |
| EventStream.Bridge.PushChunk | apps/desktop/src-tauri/src/desktop/core_manager_events.rs:142-183 | The inner loop empties the buffer of complete lines. |
| TemplateGroups.ExpansionsAgreeExactly | crates/app-transform/src/singbox.rs:183-236 | For every template, node list and filter, in both modes, a sing-box group's targets equal the order-preserving dedupe of the normalised Clash proxies if and only if the group's candidate nodes are fixed points of normalisation. |
| TemplateGroups.PushedNormalized | crates/app-transform/src/clash/mod.rs:195-224 | The two separately written builders push the same names before deduplication, one of them normalised, when the candidates are fixed points. |
| TemplateGroups.DedupeNormalized | crates/app-transform/src/shared.rs:6-10 | Deduplicating before normalising and again after gives the same list as deduplicating once after. |
| TemplateGroups.NormalizeIdempotent | crates/app-transform/src/singbox_template_utils.rs:31-37 | Normalising a policy reference twice changes nothing more. |
| TemplateGroups.BuildProxies | crates/app-transform/src/clash/mod.rs:195-224 | The Clash loops compute the deduplicated list of what Clash pushes: template entries as written, and the candidates. |
| TemplateGroups.ReplaceProxies | crates/app-transform/src/clash/mod.rs:205-224 | Clash, replace mode: the candidates stand in place of the first plain entry, or at the end if there is none and nodes are to be appended; other plain entries vanish. |
| TemplateGroups.BuildTargets | crates/app-transform/src/singbox.rs:207-236 | The sing-box loops compute the deduplicated list of what sing-box pushes: normalised template entries, and the candidates. |
| TemplateGroups.ReplaceTargets | crates/app-transform/src/singbox.rs:217-236 | sing-box, replace mode, with its own flag and normalised entries. |
| TemplateGroups.PushNormalized | crates/app-transform/src/singbox.rs:208-211 | sing-box, preserve mode: the normalised entries, each once. |
| TemplateGroups.RejectNodeDisagrees | crates/app-transform/src/singbox_template_utils.rs:31-37 | A concrete disagreement: a node named "reject". |
| TemplateGroups.PushEach | crates/app-transform/src/shared.rs:6-10 | The loop over `push_unique_proxy_name` appends the new names in order. |
| TemplateGroups.PushAllMembers | crates/app-transform/src/shared.rs:6-10 | Unique pushing neither loses nor invents a name. |
| TemplateGroups.PushAllDistinct | crates/app-transform/src/shared.rs:6-10 | Unique pushing keeps the names pairwise distinct. |
| TemplateGroups.FilterNames | crates/app-transform/src/singbox_template_utils.rs:46-57 | A name is a candidate exactly when it is in the list, passes the include filter and does not match the exclude filter; blank patterns pass everything. |
| TemplateGroups.FilterExactly | crates/app-transform/src/singbox_template_utils.rs:46-103 | By the matcher itself: a name stays, in its place and number, if and only if the trimmed include pattern matches it and the trimmed exclude pattern does not; blank and missing patterns say nothing. |
| TemplateGroups.CandidatesExactly | crates/app-transform/src/singbox.rs:183-205 | Candidates come from the appended nodes for a group with a plain item, from the final nodes for an empty group that includes all, and from nowhere otherwise; they are the names that pass the filters. |
| TemplateGroups.ClashKeeps | crates/app-transform/src/clash/mod.rs:195-204 | In preserve mode Clash pushes the entries as written, then the candidates. |
| TemplateGroups.ClashReplaces | crates/app-transform/src/clash/mod.rs:205-224 | In replace mode the candidates stand where the first plain entry stood, or at the end without one, and the other plain entries are gone. |
| TemplateGroups.SingboxKeeps | crates/app-transform/src/singbox.rs:207-216 | In preserve mode sing-box pushes the normalised entries, then the candidates as they are. |
| TemplateGroups.SingboxReplaces | crates/app-transform/src/singbox.rs:217-236 | In replace mode the same places as for Clash, with normalised entries. |
| TemplateGroups.PolicyTable | crates/app-transform/src/singbox_template_utils.rs:31-44 | Which names are policies, and what sing-box calls them. |
| TemplateGroups.DedupeExactly | crates/app-transform/src/shared.rs:6-10 | Each name stays where it first appears. |
| SingboxConfig.TemplateIsClosedExactly | crates/app-transform/src/singbox.rs:57-84 | Reference closure, for a template with groups whose appended nodes are final nodes: every group target of the assembled configuration is defined as a builtin, group or node if and only if preserve mode is off or every plain template entry (neither group nor built-in policy) is a final node or the literal "block". A template without groups falls back to the default groups, which are always closed. |
| SingboxConfig.DefaultIsClosed | crates/app-transform/src/singbox.rs:86-159 | Without a template every target of the default groups is defined, for every node list. |
| SingboxConfig.DefaultGroupsExactly | crates/app-transform/src/singbox.rs:86-159 | The default groups are "select", with "auto" and every node once, and "auto", with the nodes as they are. |
| SingboxConfig.AssembledExactly | crates/app-transform/src/singbox.rs:73-80 | The list ends in the groups and then the nodes, in order, and starts with those of "direct" and "block" that some group mentions. |
| SingboxConfig.TemplateOutboundsExactly | crates/app-transform/src/singbox.rs:161-236 | One outbound per template group, with its name and the pushed names once each; a template without groups gives the default groups. |
| SingboxConfig.ClosedMeansDefined | crates/app-transform/src/singbox_template_utils.rs:5-29 | Builtin outbounds are added exactly as far as needed: the assembled list is closed if and only if every target other than "direct" and "block" is a group or a node. |
| SingboxConfig.DefinedExactly | crates/app-transform/src/singbox_template_utils.rs:5-29 | A mentioned name is a tag of the assembled list exactly when it is one of the two builtins, a group or a node. |
| SingboxConfig.TargetOrigin | crates/app-transform/src/singbox.rs:207-236 | Every target is a candidate node or the normalised form of a template entry, and in replace mode not of a plain one. |
| SingboxConfig.AllDefinedExactly | crates/app-transform/src/singbox.rs:161-236 | The closure condition for the groups alone. |
| SingboxConfig.BuildTemplateGroups | crates/app-transform/src/singbox.rs:161-236 | One group per template group, in order, with the targets of the group builder. |
| SingboxConfig.BuildBuiltins | crates/app-transform/src/singbox_template_utils.rs:5-29 | The flag-setting nested loops yield "direct" and "block", in that order, exactly as they are mentioned. |
| SingboxConfig.Transform | crates/app-transform/src/singbox.rs:57-84 | An error exactly when some node cannot be converted; otherwise the outbounds are builtins, groups and nodes in this order, with template groups when there is a template and default groups otherwise. |
| Dedupe.DedupeMeetsSpecification | crates/app-aggregator/src/dedupe.rs:25-45 | Each key once, in order of first appearance, represented by the last node among those with the latest update of that key. |
| Dedupe.RepresentativeUnique | crates/app-aggregator/src/dedupe.rs:92-95 | That representative is unique, so the specification determines the result. |
| Dedupe.DedupeIdempotent | crates/app-aggregator/src/dedupe.rs:25-45 | Deduplicating again changes nothing. |
| Dedupe.DistinctUnchanged | crates/app-aggregator/src/dedupe.rs:25-45 | Nodes with pairwise distinct keys are left as they are. |
| Dedupe.FirstKeysMembers | crates/app-aggregator/src/dedupe.rs:32-40 | The specification's keys are pairwise distinct and exactly those of the input. |
| Dedupe.FirstKeysOrdered | crates/app-aggregator/src/dedupe.rs:32-40 | They stand in the order of their first appearances in the input. |
| Dedupe.FlattenExactly | crates/app-aggregator/src/dedupe.rs:29-30 | The input is the nodes of the sources one after the other. |
| Dedupe.DedupeNodes | crates/app-aggregator/src/dedupe.rs:25-45 | The loops over sources and nodes with the key-to-index map compute the deduplication of the flattened sources. |
| Dedupe.PushNode | crates/app-aggregator/src/dedupe.rs:30-40 | One step inserts, replaces in place or ignores, and keeps the index map equal to the positions of the keys. |
| NameConflicts.ResolvedDistinctExactly | crates/app-aggregator/src/region.rs:21-56 | After resolution all names are pairwise distinct if and only if no source-suffixed name equals another one followed by " #k" where that other one occurs at least k times, k at least 2. |
| NameConflicts.NumberingDistinctExactly | crates/app-aggregator/src/region.rs:47-55 | The same for the numbering pass alone and any list of names. |
| NameConflicts.UniquenessFails | crates/app-aggregator/src/region.rs:47-55 | The comment in the code promises uniqueness; names "A", "A", "A (s) #2" of source "s" end with a duplicate. |
| NameConflicts.ResolvedKeepsNodes | crates/app-aggregator/src/region.rs:21-56 | Count, order and every field but the name are kept. |
| NameConflicts.DistinctUntouched | crates/app-aggregator/src/region.rs:33-36 | Nodes whose names are already distinct are untouched. |
| NameConflicts.ResolvedName | crates/app-aggregator/src/region.rs:33-55 | The name of every node: a name that another node has too is followed by the alias of its source in parentheses (its id without an alias); then the first node of such a name keeps it, and the k-th one gets " #k". |
| NameConflicts.FirstOfBase | crates/app-aggregator/src/region.rs:48-55 | The node that keeps its name is the one without another of that name before it. |
| NameConflicts.ResolveNameConflicts | crates/app-aggregator/src/region.rs:21-56 | The two in-place passes compute the specified renaming of the array. |
| NameConflicts.SuffixInPlace | crates/app-aggregator/src/region.rs:25-45 | Renaming through collected positions, name by name in any order, suffixes exactly the nodes that share a name. |
| NameConflicts.CollectPositions | crates/app-aggregator/src/region.rs:25-31 | The map holds, for every name, its positions in order. |
| NameConflicts.NumberInPlace | crates/app-aggregator/src/region.rs:48-55 | The counter loop gives the k-th node of a name the number k and leaves the first alone. |
| NameConflicts.NumberedInjective | crates/app-aggregator/src/region.rs:53 | Two numbered names are equal only for the same name and number. |
| Aggregation.AggregateMeetsSpecification | crates/app-aggregator/src/merge.rs:9-19 | Aggregation delivers every identity of the sources once, in order of first appearance, as its representative under a possibly new name; names are distinct exactly under the condition above. Assumes that identity does not depend on the name. |
| Aggregation.AggregatedName | crates/app-aggregator/src/dedupe.rs:10-23 | In the aggregation the alias is the trimmed one of the last source with that id, or the id if the alias is missing or blank. |
| Aggregation.LastSourceLabels | crates/app-aggregator/src/dedupe.rs:10-23 | Every source id has a label, and of several sources with one id the last decides it. |
| Aggregation.BuildSourceAliases | crates/app-aggregator/src/dedupe.rs:10-23 | The loop computes the label map; a missing or blank alias falls back to the id. |
| Aggregation.Aggregate | crates/app-aggregator/src/merge.rs:9-19 | Aggregation is resolution after deduplication with the sources' labels. |
| PluginInstall.World.AtomicUpgrade | crates/app-core/src/plugin_install.rs:132-174 | Whatever is in the way, the upgrade succeeds exactly when no file or database step fails, and then directory and row are new with no temporary or backup directory left. After exactly one failed step directory and row are as before. After any number of failures the old contents still exist, in place or as the backup, and the row is the old or the new one. |
| PluginInstall.World.AtomicInstall | crates/app-core/src/plugin_install.rs:108-130 | An existing target is never touched. Otherwise the installation succeeds exactly when no step fails; a single failure leaves neither target nor row. |
| PluginInstall.World.RestoreBackup | crates/app-core/src/plugin_install.rs:176-184 | On success the target is the backup (or gone if there was none); on failure at most the target is gone, never the backup. |
| PluginInstall.World.ReplaceRow | crates/app-storage/src/repositories/plugin_repo.rs:38-68 | The row is replaced as a whole or not at all, and only if there was one. |
| SourceUpdate.Store.UpdateSource | crates/app-core/src/source_service/ops.rs:124-201 | The update succeeds exactly when the request is acceptable and no step fails, reads of rows, plugin, key lists and clock included, and then row, configuration and all secret fields are new: the trimmed requested name or the old one, the time of the call, and everything else of the row as before. One failing step at any point leaves row, configuration and all secrets as before, even if the failed secret write took effect. With failing compensation row and configuration still belong together, and no secret outside the fields changes. |
| SourceUpdate.Store.DeleteSource | crates/app-core/src/source_service/ops.rs:203-233 | The deletion succeeds exactly when the source exists and no step fails; one failing step leaves all secrets as before, and any failure leaves the row and configuration. |
| SourceUpdate.Store.Snapshot | crates/app-core/src/source_service/secrets.rs:68-84 | A snapshot that succeeds agrees with the store on every field, missing secrets included. |
| SourceUpdate.Store.WriteFields | crates/app-core/src/source_service/secrets.rs:140-154 | Restoring sets or deletes every field as the snapshot says, and touches nothing else even when it fails half-way. |
| SourceUpdate.Store.PersistSecrets | crates/app-core/src/source_service/ops.rs:259-278 | New secrets are set in any order and all other secret fields are pruned. |
| SourceUpdate.SameEverywhere | crates/app-core/src/source_service/ops.rs:182-190 | Agreement on the fields and no change elsewhere is equality of the whole scope, which is why restoring the fields is enough. |
| SecretStores.KeyringKeepsLastWrite | crates/app-secrets/src/stores/keyring.rs:60-112 | After every sequence of operations without backend failure and without the reserved key, the keyring store answers get with the last accepted write and lists exactly the keys that have one. |
| SecretStores.RunsAgree | crates/app-secrets/src/stores/keyring.rs:60-112 | On every such sequence the keyring store and the memory store give the same replies, errors included, and the flat entries with their index stay equal to the nested map. |
| SecretStores.StepsAgree | crates/app-secrets/src/stores/memory.rs:30-81 | The refinement for each single operation. |
| SecretStores.MemoryKeepsLastWrite | crates/app-secrets/src/stores/memory.rs:30-68 | The memory store holds the last accepted write of every key, for all sequences, the reserved key included. |
| SecretStores.StorageKeyInjective | crates/app-secrets/src/keys.rs:36-38 | Storage keys of valid keys are equal exactly when scope and key are. |
| SecretStores.ValidScopeExactly | crates/app-secrets/src/keys.rs:3-18 | A scope is valid if and only if it is "system", or "plugin:" or "source:" followed by a name. |
| SecretStores.NameCharacters | crates/app-secrets/src/keys.rs:28-34 | The characters of names, written out. |
| SecretStores.RefusedExactly | crates/app-secrets/src/keys.rs:3-26 | Both stores refuse an operation if and only if its scope, or else its key, is not valid, with the error of the first of the two; a refused operation changes nothing. |
| SecretStores.LastWriteExactly | crates/app-secrets/src/stores/memory.rs:31-68 | A key has a value if and only if some operation set it to that value and no later one set or deleted it. |
| SecretStores.UnreadableIndex | crates/app-secrets/src/stores/keyring.rs:61-106 | With an index that cannot be read, a set or delete of an ordinary key takes effect and still answers with the error. |
| SecretStores.NoEmptyScopes | crates/app-secrets/src/stores/memory.rs:56-68 | The memory store never holds an empty scope, on any run. |
| SecretStores.ReservedGetExactly | crates/app-secrets/src/stores/keyring.rs:76-88 | Reading the reserved key answers as the memory store exactly as long as the scope has no index entry. |
| SecretStores.ReservedDeleteExactly | crates/app-secrets/src/stores/keyring.rs:90-106 | Deleting the reserved key keeps the listing right exactly for an empty scope. |
| SecretStores.ReservedSetExactly | crates/app-secrets/src/stores/keyring.rs:61-74 | From any matching contents, setting the reserved key goes unnoticed by its reply, a following get and a following listing if and only if the value is the text of the scope's index with that key added. |
| SecretStores.ReservedSetComesBackExactly | crates/app-secrets/src/stores/keyring.rs:61-88 | From any contents, reply and following get agree exactly when the value is the text of an index that lists the reserved key. |
| SecretStores.ReservedGetGivesIndexAway | crates/app-secrets/src/stores/keyring.rs:76-88 | A concrete disagreement: after one set of an ordinary key the reserved key reads as the index. |
| SecretStores.KeyringStore.SetSecret | crates/app-secrets/src/stores/keyring.rs:61-74 | Entry first, then the index; when the index cannot be read the entry stays written and the reply is an error. |
| SecretStores.KeyringStore.GetSecret | crates/app-secrets/src/stores/keyring.rs:76-88 | The flat entry decides, after validation of scope and key in this order. |
| SecretStores.KeyringStore.DeleteSecret | crates/app-secrets/src/stores/keyring.rs:90-106 | Deleting an absent entry succeeds and still rewrites the index. |
| SecretStores.KeyringStore.List | crates/app-secrets/src/stores/keyring.rs:108-111 | The index entry decides the listing. |
| SecretStores.MemoryStore.SetSecret | crates/app-secrets/src/stores/memory.rs:31-40 | The value is stored in the scope's own map, created on demand. |
| SecretStores.MemoryStore.GetSecret | crates/app-secrets/src/stores/memory.rs:42-54 | A missing scope and a missing key give the same error. |
| SecretStores.MemoryStore.DeleteSecret | crates/app-secrets/src/stores/memory.rs:56-68 | The key is removed, and a scope that becomes empty with it. |
| SecretStores.MemoryStore.List | crates/app-secrets/src/stores/memory.rs:70-81 | The keys of the scope, none for an unknown scope. |
| ExportTokens.ReachableHasOneActive | crates/app-storage/src/repositories/export_token_repo.rs:74-112 | On every run of ensure, rotate and headless configuration from an empty table, a profile never has two tokens without expiry. |
| ExportTokens.StepKeepsOneActive | crates/app-storage/src/repositories/export_token_repo.rs:74-112 | Each operation keeps that, failed ones included, from any table that has it. |
| ExportTokens.GraceIsExact | crates/app-core/src/engine.rs:199-228 | With a monotone clock, a token replaced by a rotation is valid exactly until ten minutes after it, whatever later rotations, configurations and purges do, unless it is issued again. |
| ExportTokens.RetiredUntilDeadline | crates/app-storage/src/repositories/export_token_repo.rs:82-110 | Before its deadline a retired token cannot be issued again, purged or given another deadline, on any run. |
| ExportTokens.RetiredRun | crates/app-storage/src/repositories/export_token_repo.rs:82-110 | A retired token keeps its first deadline or is purged at or after it. |
| ExportTokens.ConfiguredAwayAtOnce | apps/core/src/headless/token.rs:22-42 | A token replaced by another configured one is invalid at once and stays so, unless it is issued again. |
| ExportTokens.ConfigureSucceedsExactly | apps/core/src/headless/token.rs:22-53 | Configuring succeeds for the active token and for one the table does not hold, and makes it active; a token still stored as retired, expired or not, is refused because the purge comes after the insert. |
| ExportTokens.ExpiredTokenRefused | apps/core/src/headless/token.rs:22-40 | A concrete refusal: a token rotated away and long expired cannot be configured again. |
| ExportTokens.RotateExactly | crates/app-storage/src/repositories/export_token_repo.rs:74-112 | Row by row: a rotation fails and changes nothing exactly for a token in the table; otherwise the token is added, the unexpiring ones of the profile get ten minutes, its expired ones are gone, and all else stays. |
| ExportTokens.EnsureExactly | crates/app-core/src/engine.rs:177-197 | An active token is returned as it is; otherwise the generated one is added, unless the table holds it. |
| ExportTokens.ConfigureExactly | apps/core/src/headless/token.rs:13-53 | Configuring the active token changes nothing; an unknown one replaces an active one without grace, or is added when there is none; one that is in the table otherwise is refused. |
| ExportTokens.PurgeInvisible | crates/app-storage/src/repositories/export_token_repo.rs:102-107 | On every run that never offers a purged token again, all replies and all later validity answers equal those of a table that never purges. |
| ExportTokens.PurgeInvisibleInStep | crates/app-storage/src/repositories/export_token_repo.rs:90-107 | A single operation tells the two tables apart if and only if it issues a token that one of them has purged. |
| ExportTokens.OtherProfilesUntouched | crates/app-storage/src/repositories/export_token_repo.rs:82-107 | No operation touches another profile's tokens. |
| ExportTokens.TokenTable.RotatePrimary | crates/app-storage/src/repositories/export_token_repo.rs:74-112 | One transaction: expiry for the unexpiring tokens of the profile, insertion, purge; a taken token rolls everything back. |
| ExportTokens.TokenTable.GetActive | crates/app-storage/src/repositories/export_token_repo.rs:33-48 | The newest token of the profile without expiry, or none if there is none. |
| ExportTokens.TokenTable.IsValidToken | crates/app-storage/src/repositories/export_token_repo.rs:52-72 | True exactly for a token of the profile without expiry or with one strictly after the query time. |
| ExportTokens.TokenTable.Insert | crates/app-storage/src/repositories/export_token_repo.rs:15-31 | A taken token is refused and changes nothing. |
| ExportTokens.TokenTable.EnsureToken | crates/app-core/src/engine.rs:177-197 | An active token is returned unchanged; otherwise a new one is inserted. |
| ExportTokens.TokenTable.RotateToken | crates/app-core/src/engine.rs:199-228 | A rotation with a grace period of ten minutes. |
| ExportTokens.TokenTable.ConfigureToken | apps/core/src/headless/token.rs:13-53 | Nothing for the token that is already active, a rotation without grace for another one, an insertion when there is none. |

The specification functions that a method's `ensures` names (`SsUri`, `SsrUri`, `ParseSs`, `ParseSsr`,
`ParsePayload`, `Step`, `Feed`, `ClashProxies`, `SingboxTargets`, `Assemble`, `Deduped`, `Resolved`, `KeyringStep`, `MemoryStep`
and so on) have no row of their own: the rows are the members whose contracts say something about them.

## Left out

- Other protocols: the parsers and printers of VMess, VLESS, Trojan, Hysteria2, TUIC, AnyTLS, WireGuard, SOCKS and HTTP rest on a URL library and are parameters (`Externals`, `OtherPrinter`).
- Non-URI payloads: their detection and the Clash and Surge parsers behind it are parameters of the subscription parser; the round trip holds for all of them.
- Parser errors: the kinds and texts of parse errors are one `None`; only the printer's error names the field.
- Parsed nodes: id hash, source id, timestamps, tags, transport and TLS of parsed nodes are constants or copies and are not modelled.
- SubscriptionRoundTrip.SubscriptionRoundTrip: asks that the hosts of SS nodes hold no line feed, '#', '?', '@' or bracket; with such a host the link's own delimiters move.
- LinkRoundTrip.SsRoundTrip: asks the same of the host.
- JSON values: `extra` holds strings and other values, and only strings are looked into.
- Mutex poisoning: the answers of the limiter, the tracker and the registry after a panic inside their locks are not modelled.
- RateLimiter.WindowBound: is about keys that are never evicted; which of several equally old keys is evicted is left open, as hash-map order is.
- Counters: request and failure counts are unbounded; the program's 32-bit counters never exceed the limit or the threshold.
- RefreshProtocol.ReachableIsSafe: assumes takeover updates that succeed and fresh job ids; without the first it is false, and RefreshOutcomes.SingleThroughoutExactly says exactly when one running row per source remains.
- EventStream.CutsInvisibleExactly: is about streams without a line feed; in a comment or an unknown field a replaced character leaves no trace, so with line feeds the state says less than the text (EventStream.LossyConcatExactly).
- RefreshEngine.RefreshSource: is one call without interference; interleavings are the subject of RefreshProtocol and RefreshOutcomes.
- Refresh work: fetching, scripts and node counts of a refresh are one event that ends in success, failure or panic.
- Event payloads: what the desktop makes of an event's name and data is not modelled, only which pairs are emitted, nor are the connection messages around the loop.
- Filters: whether a pattern matches a name (regular expression or substring) is an uninterpreted predicate shared by both builders.
- Group fields: type, url, interval and tolerance of groups, and Clash's fallback groups for a template without groups, are copied or constant and left out.
- Node outbounds: the fields of node outbounds are left out, and whether a node can be converted is a flag of it; only tags matter for closure.
- Dedupe keys: the identity of a node is an uninterpreted function of the node.
- Aggregation.Aggregate: leaves out the region groups of the result; `build_region_groups` only collects and sorts names.
- Map order: where the program walks a map in key order (renaming, storing secrets), the model takes any order; loops over sets stand for these walks.
- PluginInstall.World.AtomicUpgrade: a failed file step has no effect, so a half-completed directory removal is not modelled; renaming onto an existing directory fails.
- Plugin staging: loading, validating, copying and version checks before the directories are swapped are left out.
- SourceUpdate.Store.UpdateSource: validation, placeholders and the typed reading of secrets are one parameter; secrets of the legacy plugin scope are only read here, so their reads are steps that may fail and their values are left out.
- Source creation: `create_source` and the migration of legacy secrets are left out.
- Key listings: both secret stores sort the listed keys; the model compares them as sets.
- Index text: the JSON text of the keyring's index is a codec that reads back what it wrote; what else it accepts is left open.
- Other secret stores: the file and environment stores, encryption and zeroing of memory are left out.
- ExportTokens.TokenTable.GetActive: leaves open which of several equally old active tokens is found; the program prefers the larger id, which cannot matter when there is at most one (ExportTokens.ReachableHasOneActive). The id column and a clash of two ids within one nanosecond are left out.
- Profile deletion: the cascade from profiles to tokens, and the token inserted with a new profile, are left out.
- ExportTokens.GraceIsExact: is about runs that do not issue the retired token again; until its deadline nothing can (ExportTokens.RetiredUntilDeadline).
