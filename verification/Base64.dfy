/**
 Base64 (RFC 4648, sections 3.2, 4 and 5) as the `base64` crate's four engines apply it, and
 the subscription parser's "first engine that yields UTF-8 text" rule. The engines are
 strict: unused trailing bits must be zero, padded engines want canonical padding, unpadded
 engines refuse any padding.
 */
module Base64 {
  import opened Text

  datatype Engine = Engine(urlSafe: bool, padded: bool)

  const STANDARD := Engine(false, true)
  const STANDARD_NO_PAD := Engine(false, false)
  const URL_SAFE := Engine(true, true)
  const URL_SAFE_NO_PAD := Engine(true, false)

  // ---------------------------------------------------------------- bytes and sextets

  predicate AllSextets(vs: seq<nat>) {
    forall i :: 0 <= i < |vs| ==> vs[i] < 64
  }

  // Three bytes make four sextets; a missing byte counts as 0.

  function First(b0: nat): (v: nat)
    requires b0 < 256
    ensures v < 64
  {
    b0 / 4
  }

  function Second(b0: nat, b1: nat): (v: nat)
    requires b0 < 256 && b1 < 256
    ensures v < 64
  {
    b0 % 4 * 16 + b1 / 16
  }

  function Third(b1: nat, b2: nat): (v: nat)
    requires b1 < 256 && b2 < 256
    ensures v < 64
  {
    b1 % 16 * 4 + b2 / 64
  }

  function Fourth(b2: nat): (v: nat)
    requires b2 < 256
    ensures v < 64
  {
    b2 % 64
  }

  // Four sextets make three bytes.

  function High(v0: nat, v1: nat): (b: nat)
    requires v0 < 64 && v1 < 64
    ensures b < 256
  {
    v0 * 4 + v1 / 16
  }

  function Middle(v1: nat, v2: nat): (b: nat)
    requires v1 < 64 && v2 < 64
    ensures b < 256
  {
    v1 % 16 * 16 + v2 / 4
  }

  function Low(v2: nat, v3: nat): (b: nat)
    requires v2 < 64 && v3 < 64
    ensures b < 256
  {
    v2 % 4 * 64 + v3
  }

  lemma HighBack(b0: nat, b1: nat)
    requires b0 < 256 && b1 < 256
    ensures High(First(b0), Second(b0, b1)) == b0
  {
    var (r, q) := (b0 % 4, b1 / 16);
    assert (r * 16 + q) / 16 == r;
  }

  lemma MiddleBack(b0: nat, b1: nat, b2: nat)
    requires b0 < 256 && b1 < 256 && b2 < 256
    ensures Middle(Second(b0, b1), Third(b1, b2)) == b1
  {
    var (r, q, p, m) := (b0 % 4, b1 / 16, b2 / 64, b1 % 16);
    assert (r * 16 + q) % 16 == q && (m * 4 + p) / 4 == m;
  }

  lemma LowBack(b1: nat, b2: nat)
    requires b1 < 256 && b2 < 256
    ensures Low(Third(b1, b2), Fourth(b2)) == b2
  {
    var (m, p) := (b1 % 16, b2 / 64);
    assert (m * 4 + p) % 4 == p;
  }

  lemma BytesBack(b0: nat, b1: nat, b2: nat)
    requires b0 < 256 && b1 < 256 && b2 < 256
    ensures High(First(b0), Second(b0, b1)) == b0
    ensures Middle(Second(b0, b1), Third(b1, b2)) == b1
    ensures Low(Third(b1, b2), Fourth(b2)) == b2
    ensures Second(b0, 0) % 16 == 0 && Third(b1, 0) % 4 == 0
  {
    HighBack(b0, b1);
    MiddleBack(b0, b1, b2);
    LowBack(b1, b2);
    hide High, Middle, Low, First, Fourth;
  }

  lemma SextetsBack(v0: nat, v1: nat, v2: nat, v3: nat)
    requires v0 < 64 && v1 < 64 && v2 < 64 && v3 < 64
    ensures First(High(v0, v1)) == v0
    ensures Second(High(v0, v1), Middle(v1, v2)) == v1
    ensures Third(Middle(v1, v2), Low(v2, v3)) == v2
    ensures Fourth(Low(v2, v3)) == v3
    ensures v1 % 16 == 0 ==> Second(High(v0, v1), 0) == v1
    ensures v2 % 4 == 0 ==> Third(Middle(v1, v2), 0) == v2
  {
  }

  function SymbolCount(byteCount: nat): (n: nat)
    ensures n % 4 == if byteCount % 3 == 0 then 0 else byteCount % 3 + 1
    ensures n == 0 <==> byteCount == 0
  {
    byteCount / 3 * 4 + (if byteCount % 3 == 0 then 0 else byteCount % 3 + 1)
  }

  function Sextets(b: string): (vs: seq<nat>)
    requires AllBytes(b)
    ensures AllSextets(vs)
    ensures |vs| == SymbolCount(|b|)
    decreases |b|
  {
    if |b| == 0 then []
    else if |b| == 1 then [First(b[0] as int), Second(b[0] as int, 0)]
    else if |b| == 2 then [First(b[0] as int), Second(b[0] as int, b[1] as int), Third(b[1] as int, 0)]
    else
      [First(b[0] as int), Second(b[0] as int, b[1] as int), Third(b[1] as int, b[2] as int), Fourth(b[2] as int)]
      + Sextets(b[3..])
  }

  function Octets(vs: seq<nat>): (r: Option<string>)
    requires AllSextets(vs)
    ensures r.Some? ==> AllBytes(r.value)
    decreases |vs|
  {
    if |vs| == 0 then Some("")
    else if |vs| == 1 then None
    else if |vs| == 2 then
      if vs[1] % 16 == 0 then Some([High(vs[0], vs[1]) as char]) else None
    else if |vs| == 3 then
      if vs[2] % 4 == 0 then Some([High(vs[0], vs[1]) as char, Middle(vs[1], vs[2]) as char]) else None
    else
      match Octets(vs[4..])
      case None => None
      case Some(rest) =>
        Some([High(vs[0], vs[1]) as char, Middle(vs[1], vs[2]) as char, Low(vs[2], vs[3]) as char] + rest)
  }

  lemma {:induction false} OctetsOfSextets(b: string)
    requires AllBytes(b)
    ensures Octets(Sextets(b)) == Some(b)
    decreases |b|
  {
    hide First, Second, Third, Fourth, High, Middle, Low, SymbolCount;
    var vs := Sextets(b);
    if |b| >= 3 {
      OctetsOfSextets(b[3..]);
      BytesBack(b[0] as int, b[1] as int, b[2] as int);
      assert vs[4..] == Sextets(b[3..]);
      assert b == [b[0], b[1], b[2]] + b[3..];
    } else if |b| == 2 {
      BytesBack(b[0] as int, b[1] as int, 0);
      assert b == [b[0], b[1]];
    } else if |b| == 1 {
      BytesBack(b[0] as int, 0, 0);
      assert b == [b[0]];
    }
  }

  lemma {:induction false} SextetsOfOctets(vs: seq<nat>)
    requires AllSextets(vs)
    requires Octets(vs).Some?
    ensures Sextets(Octets(vs).value) == vs
    decreases |vs|
  {
    hide First, Second, Third, Fourth, High, Middle, Low, SymbolCount;
    var b := Octets(vs).value;
    if |vs| >= 4 {
      SextetsOfOctets(vs[4..]);
      SextetsBack(vs[0], vs[1], vs[2], vs[3]);
      assert b[3..] == Octets(vs[4..]).value;
      assert vs == [vs[0], vs[1], vs[2], vs[3]] + vs[4..];
    } else if |vs| == 3 {
      SextetsBack(vs[0], vs[1], vs[2], 0);
      assert vs == [vs[0], vs[1], vs[2]];
    } else if |vs| == 2 {
      SextetsBack(vs[0], vs[1], 0, 0);
      assert vs == [vs[0], vs[1]];
    }
  }

  // ---------------------------------------------------------------- alphabets

  function Symbol(urlSafe: bool, v: nat): (c: char)
    requires v < 64
    ensures c != '=' && IsPlainAscii(c)
  {
    if v < 26 then (v + 65) as char
    else if v < 52 then (v + 71) as char
    else if v < 62 then (v - 4) as char
    else if v == 62 then (if urlSafe then '-' else '+')
    else (if urlSafe then '_' else '/')
  }

  function ValueOf(urlSafe: bool, c: char): (r: Option<nat>)
    ensures r.Some? ==> r.value < 64 && Symbol(urlSafe, r.value) == c
    ensures forall v: nat :: v < 64 && Symbol(urlSafe, v) == c ==> r == Some(v)
  {
    if 'A' <= c <= 'Z' then Some(c as int - 65)
    else if 'a' <= c <= 'z' then Some(c as int - 71)
    else if '0' <= c <= '9' then Some(c as int + 4)
    else if c == (if urlSafe then '-' else '+') then Some(62)
    else if c == (if urlSafe then '_' else '/') then Some(63)
    else None
  }

  function Symbols(urlSafe: bool, vs: seq<nat>): (s: string)
    requires AllSextets(vs)
    ensures |s| == |vs|
    ensures forall i :: 0 <= i < |s| ==> s[i] == Symbol(urlSafe, vs[i])
  {
    seq(|vs|, i requires 0 <= i < |vs| => Symbol(urlSafe, vs[i]))
  }

  function Values(urlSafe: bool, s: string): (r: Option<seq<nat>>)
    ensures r.Some? ==> AllSextets(r.value) && Symbols(urlSafe, r.value) == s
    ensures r.Some? ==> |r.value| == |s| && forall i :: 0 <= i < |s| ==> ValueOf(urlSafe, s[i]) == Some(r.value[i])
  {
    if forall i :: 0 <= i < |s| ==> ValueOf(urlSafe, s[i]).Some? then
      Some(seq(|s|, i requires 0 <= i < |s| => ValueOf(urlSafe, s[i]).value))
    else None
  }

  /** The tables of sections 4 and 5 of RFC 4648. */
  lemma AlphabetTable(urlSafe: bool, v: nat)
    requires v < 64
    ensures v < 26 ==> Symbol(urlSafe, v) == "ABCDEFGHIJKLMNOPQRSTUVWXYZ"[v]
    ensures 26 <= v < 52 ==> Symbol(urlSafe, v) == "abcdefghijklmnopqrstuvwxyz"[v - 26]
    ensures 52 <= v < 62 ==> Symbol(urlSafe, v) == "0123456789"[v - 52]
    ensures v == 62 ==> Symbol(urlSafe, v) == if urlSafe then '-' else '+'
    ensures v == 63 ==> Symbol(urlSafe, v) == if urlSafe then '_' else '/'
  {
  }

  /** Three bytes and their four symbols are one 24-bit number, most significant part first. */
  lemma OneNumber(b0: nat, b1: nat, b2: nat)
    requires b0 < 256 && b1 < 256 && b2 < 256
    ensures ((First(b0) * 64 + Second(b0, b1)) * 64 + Third(b1, b2)) * 64 + Fourth(b2) == (b0 * 256 + b1) * 256 + b2
  {
  }

  lemma ValuesOfSymbols(urlSafe: bool, vs: seq<nat>)
    requires AllSextets(vs)
    ensures Values(urlSafe, Symbols(urlSafe, vs)) == Some(vs)
  {
    var s := Symbols(urlSafe, vs);
    assert forall i :: 0 <= i < |s| ==> ValueOf(urlSafe, s[i]) == Some(vs[i]);
    assert Values(urlSafe, s).value == vs;
  }

  // ---------------------------------------------------------------- the four engines

  /** RFC 4648, section 3.2: pad to a multiple of four symbols. */
  function Padding(e: Engine, byteCount: nat): string {
    if !e.padded || byteCount % 3 == 0 then ""
    else if byteCount % 3 == 1 then "=="
    else "="
  }

  function Encode(e: Engine, b: string): string
    requires AllBytes(b)
  {
    Symbols(e.urlSafe, Sextets(b)) + Padding(e, |b|)
  }

  /** The symbols before the padding; None when a padded engine refuses the length. */
  function StripPadding(e: Engine, s: string): Option<string> {
    if !e.padded then Some(s)
    else if |s| % 4 != 0 then None
    else if EndsWith(s, "==") then Some(s[..|s| - 2])
    else if EndsWith(s, "=") then Some(s[..|s| - 1])
    else Some(s)
  }

  function Decode(e: Engine, s: string): (r: Option<string>)
    ensures r.Some? ==> AllBytes(r.value)
  {
    match StripPadding(e, s)
    case None => None
    case Some(body) =>
      match Values(e.urlSafe, body)
      case None => None
      case Some(vs) => Octets(vs)
  }

  lemma StripPadded(e: Engine, body: string, pad: string)
    requires '=' !in body
    requires if e.padded then (|body| + |pad|) % 4 == 0 && (pad == "" || pad == "=" || pad == "==") else pad == ""
    ensures StripPadding(e, body + pad) == Some(body)
  {
    var s := body + pad;
    assert s[..|body|] == body && s[|body|..] == pad;
    if pad != "==" && |s| >= 2 {
      assert s[|s| - 2..][0] == body[|s| - 2];
    }
    if pad == "" && |s| >= 1 {
      assert s[|s| - 1..][0] == body[|s| - 1];
    }
    assert pad == "" ==> s == body;
  }

  /** Symbols and padding together fill whole groups of four. */
  lemma PaddedLength(e: Engine, byteCount: nat)
    ensures var pad := Padding(e, byteCount);
      if e.padded then (SymbolCount(byteCount) + |pad|) % 4 == 0 && (pad == "" || pad == "=" || pad == "==") else pad == ""
  {
    var n := SymbolCount(byteCount);
    hide SymbolCount;
    assert n % 4 == if byteCount % 3 == 0 then 0 else byteCount % 3 + 1;
  }

  lemma SymbolsHoldNoPad(urlSafe: bool, vs: seq<nat>)
    requires AllSextets(vs)
    ensures '=' !in Symbols(urlSafe, vs)
  {
    var s := Symbols(urlSafe, vs);
    hide Symbol, Symbols;
    forall i | 0 <= i < |s| ensures s[i] != '=' {
      assert s[i] == Symbol(urlSafe, vs[i]);
    }
  }

  lemma StripEncoded(e: Engine, b: string)
    requires AllBytes(b)
    ensures StripPadding(e, Encode(e, b)) == Some(Symbols(e.urlSafe, Sextets(b)))
  {
    hide SymbolCount, Sextets, Symbols, Symbol, Padding, StripPadding, AllSextets;
    PaddedLength(e, |b|);
    SymbolsHoldNoPad(e.urlSafe, Sextets(b));
    StripPadded(e, Symbols(e.urlSafe, Sextets(b)), Padding(e, |b|));
  }

  lemma SextetsOfGroup(group: string, rest: string)
    requires |group| == 3 && AllBytes(group) && AllBytes(rest) && AllBytes(group + rest)
    ensures Sextets(group + rest) == [First(group[0] as int), Second(group[0] as int, group[1] as int),
                                      Third(group[1] as int, group[2] as int), Fourth(group[2] as int)] + Sextets(rest)
  {
    var s := group + rest;
    assert s[3..] == rest && s[0] == group[0] && s[1] == group[1] && s[2] == group[2];
    hide First, Second, Third, Fourth;
  }

  lemma SextetsOfThree(group: string)
    requires |group| == 3 && AllBytes(group)
    ensures Sextets(group) == [First(group[0] as int), Second(group[0] as int, group[1] as int),
                               Third(group[1] as int, group[2] as int), Fourth(group[2] as int)]
  {
    SextetsOfGroup(group, "");
    assert group + "" == group;
    hide First, Second, Third, Fourth;
  }

  /** Full groups of three bytes are encoded one by one. */
  lemma EncodeGroup(e: Engine, group: string, rest: string)
    requires |group| == 3 && AllBytes(group) && AllBytes(rest) && AllBytes(group + rest)
    ensures Encode(e, group + rest) == Symbols(e.urlSafe, Sextets(group)) + Encode(e, rest)
    ensures Sextets(group) == [First(group[0] as int), Second(group[0] as int, group[1] as int),
                               Third(group[1] as int, group[2] as int), Fourth(group[2] as int)]
  {
    hide First, Second, Third, Fourth, Symbol, Symbols, Sextets;
    SextetsOfGroup(group, rest);
    SextetsOfThree(group);
    assert Padding(e, |group + rest|) == Padding(e, |rest|);
    SymbolsConcat(e.urlSafe, Sextets(group), Sextets(rest));
  }

  /** One or two bytes at the end count as followed by zeros, and the symbols of the missing bytes are dropped or padded. */
  lemma EncodeEnd(e: Engine, end: string)
    requires 1 <= |end| <= 2 && AllBytes(end)
    ensures |end| == 1 ==>
      Encode(e, end) == Symbols(e.urlSafe, [First(end[0] as int), Second(end[0] as int, 0)]) + (if e.padded then "==" else "")
    ensures |end| == 2 ==>
      Encode(e, end) == Symbols(e.urlSafe, [First(end[0] as int), Second(end[0] as int, end[1] as int), Third(end[1] as int, 0)])
                        + (if e.padded then "=" else "")
  {
    hide First, Second, Third, Fourth, Symbol, Symbols;
  }

  lemma SymbolsConcat(urlSafe: bool, a: seq<nat>, b: seq<nat>)
    requires AllSextets(a) && AllSextets(b)
    ensures AllSextets(a + b) && Symbols(urlSafe, a + b) == Symbols(urlSafe, a) + Symbols(urlSafe, b)
  {
    hide Symbol;
  }

  lemma DecodeEncoded(e: Engine, b: string)
    requires AllBytes(b)
    ensures Decode(e, Encode(e, b)) == Some(b)
  {
    StripEncoded(e, b);
    ValuesOfSymbols(e.urlSafe, Sextets(b));
    OctetsOfSextets(b);
  }

  lemma StripRestores(e: Engine, s: string, b: string)
    requires StripPadding(e, s).Some?
    requires |StripPadding(e, s).value| == SymbolCount(|b|)
    ensures s == StripPadding(e, s).value + Padding(e, |b|)
  {
    hide SymbolCount;
    var body := StripPadding(e, s).value;
    if e.padded && EndsWith(s, "==") {
      assert Padding(e, |b|) == s[|s| - 2..];
    } else if e.padded && EndsWith(s, "=") {
      assert Padding(e, |b|) == s[|s| - 1..];
    } else {
      assert Padding(e, |b|) == "" && body + "" == body;
    }
  }

  lemma EncodeDecoded(e: Engine, s: string)
    requires Decode(e, s).Some?
    ensures Encode(e, Decode(e, s).value) == s
  {
    var body := StripPadding(e, s).value;
    var vs := Values(e.urlSafe, body).value;
    SextetsOfOctets(vs);
    var b := Octets(vs).value;
    assert Symbols(e.urlSafe, Sextets(b)) == body;
    StripRestores(e, s, b);
  }

  /** A strict engine accepts exactly the texts that it prints. */
  lemma DecodeExactly(e: Engine, s: string, b: string)
    requires AllBytes(b)
    ensures Decode(e, s) == Some(b) <==> s == Encode(e, b)
  {
    if Decode(e, s) == Some(b) {
      EncodeDecoded(e, s);
    }
    if s == Encode(e, b) {
      DecodeEncoded(e, b);
    }
  }

  lemma ValuesAgree(s: string)
    requires Values(false, s).Some? && Values(true, s).Some?
    ensures Values(false, s) == Values(true, s)
  {
    var (vs, ws) := (Values(false, s).value, Values(true, s).value);
    forall i | 0 <= i < |s| ensures vs[i] == ws[i] {
      assert Symbol(false, vs[i]) == s[i] == Symbol(true, ws[i]);
    }
    assert vs == ws;
  }

  /** Whatever the text, two engines that both accept it read the same bytes. */
  lemma EnginesAgree(e: Engine, f: Engine, s: string)
    requires Decode(e, s).Some? && Decode(f, s).Some?
    ensures Decode(e, s) == Decode(f, s)
  {
    var (x, y) := (StripPadding(e, s).value, StripPadding(f, s).value);
    assert x == y by {
      if e.padded != f.padded {
        var plain := if e.padded then f else e;
        assert Symbols(plain.urlSafe, Values(plain.urlSafe, s).value) == s;
        assert '=' !in s;
        assert !EndsWith(s, "=") && !EndsWith(s, "==") by {
          if |s| > 0 {
            assert s[|s| - 1..][0] != '=';
          }
          if |s| > 1 {
            assert s[|s| - 2..][0] != '=';
          }
        }
      }
    }
    if e.urlSafe != f.urlSafe {
      ValuesAgree(x);
    }
  }

  // ---------------------------------------------------------------- guessing the engine

  function DecodeText(e: Engine, s: string): Option<string> {
    match Decode(e, s)
    case None => None
    case Some(b) => if IsUtf8(b) then Some(b) else None
  }

  function TryDecodeText(s: string): Option<string> {
    if DecodeText(STANDARD, s).Some? then DecodeText(STANDARD, s)
    else if DecodeText(STANDARD_NO_PAD, s).Some? then DecodeText(STANDARD_NO_PAD, s)
    else if DecodeText(URL_SAFE, s).Some? then DecodeText(URL_SAFE, s)
    else DecodeText(URL_SAFE_NO_PAD, s)
  }

  lemma TryDecodeAny(e: Engine, s: string)
    requires DecodeText(e, s).Some?
    ensures TryDecodeText(s) == DecodeText(e, s)
  {
    assert e == STANDARD || e == STANDARD_NO_PAD || e == URL_SAFE || e == URL_SAFE_NO_PAD;
    forall f: Engine | DecodeText(f, s).Some? ensures DecodeText(f, s) == DecodeText(e, s) {
      EnginesAgree(e, f, s);
    }
  }

  lemma TryDecodeSound(s: string, t: string) returns (e: Engine)
    requires TryDecodeText(s) == Some(t)
    ensures IsUtf8(t) && s == Encode(e, t)
  {
    e := if DecodeText(STANDARD, s).Some? then STANDARD
         else if DecodeText(STANDARD_NO_PAD, s).Some? then STANDARD_NO_PAD
         else if DecodeText(URL_SAFE, s).Some? then URL_SAFE
         else URL_SAFE_NO_PAD;
    EncodeDecoded(e, s);
  }

  lemma TryDecodeEncoded(e: Engine, t: string)
    requires IsUtf8(t)
    ensures TryDecodeText(Encode(e, t)) == Some(t)
  {
    DecodeEncoded(e, t);
    TryDecodeAny(e, Encode(e, t));
  }

  /** Guessing is unambiguous: it yields `t` exactly on the four encodings of the valid text `t`. */
  lemma TryDecodeExactly(s: string, t: string)
    ensures TryDecodeText(s) == Some(t)
       <==> IsUtf8(t) && exists e: Engine :: s == Encode(e, t)
  {
    if TryDecodeText(s) == Some(t) {
      var e := TryDecodeSound(s, t);
    }
    if IsUtf8(t) {
      forall e: Engine | s == Encode(e, t) ensures TryDecodeText(s) == Some(t) {
        TryDecodeEncoded(e, t);
      }
    }
  }

  /** Encoded text is visible ASCII over the alphabet, so it holds no delimiter and no line break. */
  lemma EncodedAlphabet(e: Engine, b: string, c: char)
    requires AllBytes(b)
    requires c in Encode(e, b)
    ensures IsPlainAscii(c)
    ensures c == '=' ==> e.padded
    ensures c !in ":#?@&%[]"
    ensures e.urlSafe ==> c != '/' && c != '+'
  {
    hide Sextets;
    var vs := Sextets(b);
    if c in Symbols(e.urlSafe, vs) {
      var i :| 0 <= i < |vs| && Symbols(e.urlSafe, vs)[i] == c;
      SymbolClass(e.urlSafe, vs[i]);
    } else {
      assert c in Padding(e, |b|);
    }
  }

  lemma SymbolClass(urlSafe: bool, v: nat)
    requires v < 64
    ensures Symbol(urlSafe, v) !in ":#?@&%[]="
    ensures urlSafe ==> Symbol(urlSafe, v) != '/' && Symbol(urlSafe, v) != '+'
  {
  }
}
