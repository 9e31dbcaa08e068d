/**
 Percent-encoding (RFC 3986, sections 2.1 and 2.3): the printer's `percent_encode_component`
 and the parser's `decode_percent_encoded`, with Rust's lossy UTF-8 conversion.
 */
module Percent {
  import opened Text

  predicate IsAlphanumeric(c: char) {
    'a' <= c <= 'z' || 'A' <= c <= 'Z' || '0' <= c <= '9'
  }

  /** RFC 3986, section 2.3 */
  predicate IsUnreserved(c: char) {
    IsAlphanumeric(c) || c == '-' || c == '_' || c == '.' || c == '~'
  }

  function NibbleToHex(v: nat): char
    requires v < 16
  {
    if v <= 9 then ('0' as int + v) as char else ('A' as int + (v - 10)) as char
  }

  predicate IsHexDigit(c: char) {
    '0' <= c <= '9' || 'a' <= c <= 'f' || 'A' <= c <= 'F'
  }

  function HexValue(c: char): (v: nat)
    ensures v < 16
  {
    if '0' <= c <= '9' then c as int - '0' as int
    else if 'a' <= c <= 'f' then c as int - 'a' as int + 10
    else if 'A' <= c <= 'F' then c as int - 'A' as int + 10
    else 0
  }

  function EncodeByte(c: char): string
    requires c as int < 256
  {
    if IsUnreserved(c) then [c]
    else ['%', NibbleToHex(c as int / 16), NibbleToHex(c as int % 16)]
  }

  function Encode(s: string): string
    requires AllBytes(s)
  {
    if s == "" then "" else EncodeByte(s[0]) + Encode(s[1..])
  }

  lemma {:induction false} EncodeSnoc(s: string, c: char)
    requires AllBytes(s) && c as int < 256
    ensures Encode(s + [c]) == Encode(s) + EncodeByte(c)
    decreases |s|
  {
    if s == "" {
      assert Encode([c]) == EncodeByte(c) + Encode([c][1..]);
    } else {
      EncodeSnoc(s[1..], c);
      assert (s + [c])[1..] == s[1..] + [c];
    }
  }

  /** `percent_encode_component` */
  method EncodeComponent(value: string) returns (encoded: string)
    requires AllBytes(value)
    ensures encoded == Encode(value)
  {
    encoded := "";
    for i := 0 to |value|
      invariant encoded == Encode(value[..i])
    {
      var byte := value[i];
      EncodeSnoc(value[..i], byte);
      assert value[..i + 1] == value[..i] + [byte];
      if IsUnreserved(byte) {
        encoded := encoded + [byte];
      } else {
        encoded := encoded + ['%', NibbleToHex(byte as int / 16), NibbleToHex(byte as int % 16)];
      }
    }
    assert value[..|value|] == value;
  }

  predicate IsEscape(s: string) {
    2 < |s| && s[0] == '%' && IsHexDigit(s[1]) && IsHexDigit(s[2])
  }

  function EscapedByte(hi: char, lo: char): char {
    (HexValue(hi) * 16 + HexValue(lo)) as char
  }

  /** The decoding loop: a '%' with two hex digits is one byte, anything else stands for itself. */
  function DecodeBytes(s: string): string
    decreases |s|
  {
    if s == "" then ""
    else if IsEscape(s) then [EscapedByte(s[1], s[2])] + DecodeBytes(s[3..])
    else [s[0]] + DecodeBytes(s[1..])
  }

  function DecodeComponent(s: string): string {
    if '%' !in s then s
    else
      var decoded := DecodeBytes(s);
      if IsUtf8(decoded) then decoded else Lossy(decoded)
  }

  /** The while loop of `decode_percent_encoded` */
  method DecodeLoop(bytes: string) returns (decoded: string)
    ensures decoded == DecodeBytes(bytes)
  {
    hide IsHexDigit, EscapedByte, DecodeBytes;
    decoded := "";
    assert bytes[0..] == bytes && forall s: string :: "" + s == s;
    var index := 0;
    while index < |bytes|
      invariant index <= |bytes|
      invariant decoded + DecodeBytes(bytes[index..]) == DecodeBytes(bytes)
    {
      ghost var rest := bytes[index..];
      DecodeStep(rest);
      if bytes[index] == '%' && index + 2 < |bytes| {
        var hi, lo := bytes[index + 1], bytes[index + 2];
        if IsHexDigit(hi) && IsHexDigit(lo) {
          assert IsEscape(rest) && rest[1] == hi && rest[2] == lo && rest[3..] == bytes[index + 3..];
          assert decoded + DecodeBytes(rest) == decoded + [EscapedByte(hi, lo)] + DecodeBytes(bytes[index + 3..]);
          decoded := decoded + [EscapedByte(hi, lo)];
          index := index + 3;
          continue;
        }
      }
      assert !IsEscape(rest) && rest[0] == bytes[index] && rest[1..] == bytes[index + 1..];
      assert decoded + DecodeBytes(rest) == decoded + [bytes[index]] + DecodeBytes(bytes[index + 1..]);
      decoded := decoded + [bytes[index]];
      index := index + 1;
    }
    assert bytes[index..] == "" && decoded + "" == decoded;
    DecodeNothing();
  }

  lemma DecodeNothing()
    ensures DecodeBytes("") == ""
  {
  }

  lemma DecodeStep(s: string)
    requires s != ""
    ensures DecodeBytes(s) ==
      if IsEscape(s) then [EscapedByte(s[1], s[2])] + DecodeBytes(s[3..]) else [s[0]] + DecodeBytes(s[1..])
  {
  }

  /** `decode_percent_encoded` */
  method DecodePercentEncoded(raw: string) returns (r: string)
    ensures r == DecodeComponent(raw)
  {
    hide IsUtf8, Lossy;
    if '%' !in raw {
      return raw;
    }
    var decoded := DecodeLoop(raw);
    r := if IsUtf8(decoded) then decoded else Lossy(decoded);
  }

  // ---------------------------------------------------------------- String::from_utf8_lossy

  /** The length of the maximal ill-formed piece at the start of `s`. */
  function BrokenLength(s: string): (n: nat)
    requires s != ""
    ensures 0 < n <= |s|
  {
    var b0 := s[0] as int;
    if 0xE0 <= b0 <= 0xF4 && |s| >= 2 && SecondByteFits(b0, s[1]) then
      if b0 >= 0xF0 && |s| >= 3 && IsContinuation(s[2]) then 3 else 2
    else 1
  }

  /** U+FFFD, the replacement character */
  const REPLACEMENT := "\U{EF}\U{BF}\U{BD}"

  function Lossy(s: string): string
    decreases |s|
  {
    if s == "" then ""
    else if LeadLength(s) > 0 then s[..LeadLength(s)] + Lossy(s[LeadLength(s)..])
    else REPLACEMENT + Lossy(s[BrokenLength(s)..])
  }

  lemma {:induction false} LossyIsUtf8(s: string)
    ensures IsUtf8(Lossy(s))
    decreases |s|
  {
    if s != "" {
      var n := LeadLength(s);
      var (head, rest) := if n > 0 then (s[..n], s[n..]) else (REPLACEMENT, s[BrokenLength(s)..]);
      LossyIsUtf8(rest);
      assert LeadLength(head) == |head| by {
        if n > 0 {
          LeadLengthTruncated(s, n);
        }
      }
      assert head[|head|..] == "";
      Utf8Concat(head, Lossy(rest));
    }
  }

  lemma {:induction false} LossyOfUtf8(s: string)
    requires IsUtf8(s)
    ensures Lossy(s) == s
    decreases |s|
  {
    hide LeadLength, BrokenLength;
    if s != "" {
      LossyOfUtf8(s[LeadLength(s)..]);
      assert s == s[..LeadLength(s)] + s[LeadLength(s)..];
    }
  }

  /** The lossy conversion always yields valid text and leaves exactly the valid texts alone. */
  lemma LossyFixesExactlyUtf8(s: string)
    ensures IsUtf8(Lossy(s))
    ensures Lossy(s) == s <==> IsUtf8(s)
  {
    LossyIsUtf8(s);
    if IsUtf8(s) {
      LossyOfUtf8(s);
    }
  }

  /** A broken piece of at most three bytes gives way to the three bytes of U+FFFD. */
  lemma {:induction false} LossyIsNoShorter(s: string)
    ensures |Lossy(s)| >= |s|
    decreases |s|
  {
    if s != "" {
      assert BrokenLength(s) <= |REPLACEMENT|;
      hide LeadLength, BrokenLength;
      LossyIsNoShorter(if LeadLength(s) > 0 then s[LeadLength(s)..] else s[BrokenLength(s)..]);
    }
  }

  lemma {:induction false} LossyAddsNoLineFeed(s: string)
    requires '\n' !in s
    ensures '\n' !in Lossy(s)
    decreases |s|
  {
    hide LeadLength, BrokenLength;
    if s != "" {
      LossyAddsNoLineFeed(if LeadLength(s) > 0 then s[LeadLength(s)..] else s[BrokenLength(s)..]);
    }
  }

  // ---------------------------------------------------------------- round trip

  lemma HexRoundTrip(v: nat)
    requires v < 16
    ensures IsHexDigit(NibbleToHex(v)) && HexValue(NibbleToHex(v)) == v
    ensures IsAlphanumeric(NibbleToHex(v))
  {
  }

  /** Hexadecimal digits in either case. */
  lemma HexDigits(v: nat)
    requires v < 16
    ensures NibbleToHex(v) == "0123456789ABCDEF"[v]
    ensures HexValue("0123456789ABCDEF"[v]) == v && IsHexDigit("0123456789ABCDEF"[v])
    ensures HexValue("0123456789abcdef"[v]) == v && IsHexDigit("0123456789abcdef"[v])
  {
  }

  lemma HexDigitsOnly(c: char)
    ensures IsHexDigit(c) <==> c in "0123456789ABCDEFabcdef"
  {
  }

  lemma EscapeDecodes(h: char, l: char, rest: string)
    requires IsHexDigit(h) && IsHexDigit(l)
    ensures DecodeBytes(['%', h, l] + rest) == [EscapedByte(h, l)] + DecodeBytes(rest)
  {
    hide IsHexDigit, EscapedByte;
    assert (['%', h, l] + rest)[3..] == rest;
  }

  /** An escape stands for its byte, with the case of each digit as it likes. */
  lemma EscapeExactly(high: nat, low: nat, h: char, l: char, rest: string)
    requires high < 16 && low < 16
    requires h == "0123456789ABCDEF"[high] || h == "0123456789abcdef"[high]
    requires l == "0123456789ABCDEF"[low] || l == "0123456789abcdef"[low]
    ensures DecodeBytes(['%', h, l] + rest) == [(high * 16 + low) as char] + DecodeBytes(rest)
  {
    HexDigits(high);
    HexDigits(low);
    hide HexValue, IsHexDigit, DecodeBytes;
    EscapeDecodes(h, l, rest);
  }

  /** Everything else stands for itself, a '%' without two digits after it included. */
  lemma PlainExactly(c: char, rest: string)
    requires c != '%' || |rest| < 2 || !IsHexDigit(rest[0]) || !IsHexDigit(rest[1])
    ensures DecodeBytes([c] + rest) == [c] + DecodeBytes(rest) && DecodeBytes("") == ""
  {
    hide IsHexDigit;
    assert ([c] + rest)[1..] == rest;
    assert |rest| >= 2 ==> ([c] + rest)[1] == rest[0] && ([c] + rest)[2] == rest[1];
  }

  lemma DecodeEncodedByte(c: char, rest: string)
    requires c as int < 256
    ensures DecodeBytes(EncodeByte(c) + rest) == [c] + DecodeBytes(rest)
  {
    var s := EncodeByte(c) + rest;
    if IsUnreserved(c) {
      assert s[1..] == rest;
    } else {
      HexRoundTrip(c as int / 16);
      HexRoundTrip(c as int % 16);
      assert s[3..] == rest;
    }
  }

  lemma {:induction false} DecodeEncodedBytes(s: string)
    requires AllBytes(s)
    ensures DecodeBytes(Encode(s)) == s
    decreases |s|
  {
    if s != "" {
      DecodeEncodedBytes(s[1..]);
      DecodeEncodedByte(s[0], Encode(s[1..]));
      assert s == [s[0]] + s[1..];
    }
  }

  lemma {:induction false} PlainDecodesToItself(s: string)
    requires '%' !in s
    ensures DecodeBytes(s) == s
    decreases |s|
  {
    if s != "" {
      PlainDecodesToItself(s[1..]);
      assert s == [s[0]] + s[1..];
    }
  }

  /** Decoding undoes encoding on every valid text. */
  lemma DecodeEncoded(s: string)
    requires IsUtf8(s)
    ensures DecodeComponent(Encode(s)) == s
  {
    DecodeEncodedBytes(s);
    if '%' !in Encode(s) {
      PlainDecodesToItself(Encode(s));
    }
  }

  /** RFC 3986, section 2.1: unreserved characters and '%' followed by two hex digits. */
  predicate WellEncoded(s: string)
    decreases |s|
  {
    || s == ""
    || (IsUnreserved(s[0]) && WellEncoded(s[1..]))
    || (|s| >= 3 && s[0] == '%' && IsHexDigit(s[1]) && IsHexDigit(s[2]) && WellEncoded(s[3..]))
  }

  lemma {:induction false} EncodeIsWellEncoded(s: string)
    requires AllBytes(s)
    ensures WellEncoded(Encode(s))
    decreases |s|
  {
    if s != "" {
      EncodeIsWellEncoded(s[1..]);
      var e := Encode(s);
      if IsUnreserved(s[0]) {
        assert e[1..] == Encode(s[1..]);
      } else {
        HexRoundTrip(s[0] as int / 16);
        HexRoundTrip(s[0] as int % 16);
        assert e[3..] == Encode(s[1..]);
      }
    }
  }

  lemma EncodedByteAlphabet(b: char, c: char)
    requires b as int < 256
    requires c in EncodeByte(b)
    ensures IsUnreserved(c) || c == '%'
  {
    HexRoundTrip(b as int / 16);
    HexRoundTrip(b as int % 16);
  }

  lemma UnreservedIsPlain(c: char)
    requires IsUnreserved(c) || c == '%'
    ensures IsPlainAscii(c) && c !in ":/?#[]@!$&'()*+,;="
  {
  }

  /** Encoded text is visible ASCII without any URI delimiter or line break. */
  lemma {:induction false} EncodedAlphabet(s: string, c: char)
    requires AllBytes(s)
    requires c in Encode(s)
    ensures IsPlainAscii(c) && (IsUnreserved(c) || c == '%')
    ensures c !in ":/?#[]@!$&'()*+,;="
    decreases |s|
  {
    hide IsUnreserved, IsPlainAscii, EncodeByte;
    if c in Encode(s[1..]) {
      EncodedAlphabet(s[1..], c);
    } else {
      EncodedByteAlphabet(s[0], c);
      UnreservedIsPlain(c);
    }
  }

  /** Decoding never empties a text. */
  lemma DecodeNonEmpty(s: string)
    ensures DecodeComponent(s) == "" <==> s == ""
  {
  }
}
