/** UTF-8 as section 3 of RFC 3629 defines it, by code points, and what trimming does. */
module Utf8 {
  import opened Text
  import Percent

  // ---------------------------------------------------------------- code points

  /** A Unicode scalar value: a code point that is not a surrogate. */
  predicate IsScalar(cp: nat) {
    cp <= 0x10FFFF && !(0xD800 <= cp <= 0xDFFF)
  }

  function EncodeScalar(cp: nat): (s: string)
    requires IsScalar(cp)
    ensures 1 <= |s| <= 4
  {
    if cp < 0x80 then [cp as char]
    else if cp < 0x800 then [(0xC0 + cp / 0x40) as char, (0x80 + cp % 0x40) as char]
    else if cp < 0x1_0000 then [(0xE0 + cp / 0x40 / 0x40) as char, (0x80 + cp / 0x40 % 0x40) as char, (0x80 + cp % 0x40) as char]
    else
      [(0xF0 + cp / 0x40 / 0x40 / 0x40) as char, (0x80 + cp / 0x40 / 0x40 % 0x40) as char,
       (0x80 + cp / 0x40 % 0x40) as char, (0x80 + cp % 0x40) as char]
  }

  predicate AllScalars(cps: seq<nat>) {
    forall i :: 0 <= i < |cps| ==> IsScalar(cps[i])
  }

  function EncodeScalars(cps: seq<nat>): string
    requires AllScalars(cps)
  {
    if cps == [] then "" else EncodeScalar(cps[0]) + EncodeScalars(cps[1..])
  }

  lemma ScalarIsCharacter(cp: nat, rest: string)
    requires IsScalar(cp)
    ensures LeadLength(EncodeScalar(cp) + rest) == |EncodeScalar(cp)|
  {
  }

  lemma SixBits(high: nat, low: nat)
    requires low < 0x40
    ensures (high * 0x40 + low) / 0x40 == high && (high * 0x40 + low) % 0x40 == low
  {
  }

  lemma TwoBytes(a: char, b: char) returns (cp: nat)
    requires 0xC2 <= a as int <= 0xDF && IsContinuation(b)
    ensures IsScalar(cp) && EncodeScalar(cp) == [a, b]
  {
    var (x, y) := (a as int - 0xC0, b as int - 0x80);
    cp := x * 0x40 + y;
    SixBits(x, y);
  }

  lemma ThreeBytes(a: char, b: char, c: char) returns (cp: nat)
    requires 0xE0 <= a as int <= 0xEF && SecondByteFits(a as int, b) && IsContinuation(c)
    ensures IsScalar(cp) && EncodeScalar(cp) == [a, b, c]
  {
    var (x, y, z) := (a as int - 0xE0, b as int - 0x80, c as int - 0x80);
    cp := (x * 0x40 + y) * 0x40 + z;
    SixBits(x * 0x40 + y, z);
    SixBits(x, y);
  }

  lemma FourBytes(a: char, b: char, c: char, d: char) returns (cp: nat)
    requires 0xF0 <= a as int <= 0xF4 && SecondByteFits(a as int, b) && IsContinuation(c) && IsContinuation(d)
    ensures IsScalar(cp) && EncodeScalar(cp) == [a, b, c, d]
  {
    var (x, y, z, w) := (a as int - 0xF0, b as int - 0x80, c as int - 0x80, d as int - 0x80);
    cp := ((x * 0x40 + y) * 0x40 + z) * 0x40 + w;
    SixBits((x * 0x40 + y) * 0x40 + z, w);
    SixBits(x * 0x40 + y, z);
    SixBits(x, y);
  }

  lemma CharacterIsScalar(s: string) returns (cp: nat)
    requires LeadLength(s) > 0
    ensures IsScalar(cp) && EncodeScalar(cp) == s[..LeadLength(s)]
  {
    hide EncodeScalar, IsScalar;
    var n := LeadLength(s);
    if n == 1 {
      cp := s[0] as int;
      OneByte(s[0]);
    } else if n == 2 {
      cp := TwoBytes(s[0], s[1]);
    } else if n == 3 {
      cp := ThreeBytes(s[0], s[1], s[2]);
    } else {
      cp := FourBytes(s[0], s[1], s[2], s[3]);
    }
  }

  lemma OneByte(a: char)
    requires a as int < 0x80
    ensures IsScalar(a as int) && EncodeScalar(a as int) == [a]
  {
  }

  lemma {:induction false} EncodedIsUtf8(cps: seq<nat>)
    requires AllScalars(cps)
    ensures IsUtf8(EncodeScalars(cps))
    decreases |cps|
  {
    hide EncodeScalar, LeadLength;
    if cps != [] {
      var rest := EncodeScalars(cps[1..]);
      EncodedIsUtf8(cps[1..]);
      ScalarIsCharacter(cps[0], rest);
      assert (EncodeScalar(cps[0]) + rest)[|EncodeScalar(cps[0])|..] == rest;
    }
  }

  lemma {:induction false} Utf8IsEncoded(s: string) returns (cps: seq<nat>)
    requires IsUtf8(s)
    ensures AllScalars(cps) && EncodeScalars(cps) == s
    decreases |s|
  {
    hide EncodeScalar, LeadLength, IsScalar;
    if s == "" {
      cps := [];
    } else {
      var cp := CharacterIsScalar(s);
      var rest := Utf8IsEncoded(s[LeadLength(s)..]);
      cps := [cp] + rest;
      assert cps[1..] == rest && s == s[..LeadLength(s)] + s[LeadLength(s)..];
    }
  }

  /** A byte string is valid exactly if it encodes some sequence of scalar values. */
  lemma Utf8Exactly(s: string)
    ensures IsUtf8(s) <==> exists cps: seq<nat> :: AllScalars(cps) && EncodeScalars(cps) == s
  {
    if IsUtf8(s) {
      var cps := Utf8IsEncoded(s);
    }
    if exists cps: seq<nat> :: AllScalars(cps) && EncodeScalars(cps) == s {
      var cps: seq<nat> :| AllScalars(cps) && EncodeScalars(cps) == s;
      EncodedIsUtf8(cps);
    }
  }

  // ---------------------------------------------------------------- white space

  /** The White_Space property of Unicode. */
  predicate IsWhiteScalar(cp: nat) {
    || 0x9 <= cp <= 0xD || cp == 0x20 || cp == 0x85 || cp == 0xA0 || cp == 0x1680
    || 0x2000 <= cp <= 0x200A || cp == 0x2028 || cp == 0x2029 || cp == 0x202F || cp == 0x205F || cp == 0x3000
  }

  lemma WhiteExactly(cp: nat)
    requires IsScalar(cp)
    ensures IsWhite(EncodeScalar(cp)) <==> IsWhiteScalar(cp)
  {
  }

  /** Nothing but white characters. */
  predicate AllWhite(s: string)
    decreases |s|
  {
    s == "" || exists k :: 1 <= k <= |s| && IsWhite(s[..k]) && AllWhite(s[k..])
  }

  lemma {:induction false} AllWhiteSnoc(s: string, w: string)
    requires AllWhite(s) && IsWhite(w)
    ensures AllWhite(s + w)
    decreases |s|
  {
    hide IsWhite;
    if s == "" {
      assert s + w == w && w[..|w|] == w && w[|w|..] == "";
      WhiteIsCharacter(w);
    } else {
      var k :| 1 <= k <= |s| && IsWhite(s[..k]) && AllWhite(s[k..]);
      AllWhiteSnoc(s[k..], w);
      assert (s + w)[..k] == s[..k] && (s + w)[k..] == s[k..] + w;
    }
  }

  lemma AllWhiteCons(w: string, s: string)
    requires IsWhite(w) && AllWhite(s)
    ensures AllWhite(w + s)
  {
    WhiteIsCharacter(w);
    hide IsWhite, LeadLength;
    assert (w + s)[..|w|] == w && (w + s)[|w|..] == s;
  }

  lemma TrimStartStep(s: string)
    ensures var n := WhitePrefix(s);
      if n > 0 then IsWhite(s[..n]) && TrimStart(s) == TrimStart(s[n..]) else TrimStart(s) == s
  {
    hide IsWhite, LeadLength;
  }

  lemma {:induction false} TrimStartExactly(s: string) returns (before: string)
    ensures s == before + TrimStart(s) && AllWhite(before) && WhitePrefix(TrimStart(s)) == 0
    decreases |s|
  {
    hide *;
    TrimStartStep(s);
    var n := WhitePrefix(s);
    if n > 0 {
      var rest := TrimStartExactly(s[n..]);
      before := s[..n] + rest;
      AllWhiteCons(s[..n], rest);
      assert s == s[..n] + s[n..];
    } else {
      before := "";
      NothingIsWhite();
    }
  }

  lemma TrimEndStep(s: string)
    ensures TrimEnd(s) == if WhiteSuffix(s) > 0 then TrimEnd(s[..|s| - WhiteSuffix(s)]) else s
  {
    hide WhiteSuffix;
  }

  lemma {:induction false} TrimEndExactly(s: string) returns (after: string)
    ensures s == TrimEnd(s) + after && AllWhite(after) && WhiteSuffix(TrimEnd(s)) == 0
    decreases |s|
  {
    hide *;
    TrimEndStep(s);
    var n := WhiteSuffix(s);
    if n > 0 {
      var (kept, w) := (s[..|s| - n], s[|s| - n..]);
      var rest := TrimEndExactly(kept);
      after := rest + w;
      AllWhiteSnoc(rest, w);
      assert s == kept + w;
    } else {
      after := "";
      NothingIsWhite();
    }
  }

  lemma NothingIsWhite()
    ensures AllWhite("")
  {
  }

  lemma WhitePrefixExtends(s: string, k: nat)
    requires k <= |s|
    ensures WhitePrefix(s[..k]) > 0 ==> WhitePrefix(s) == WhitePrefix(s[..k])
  {
    hide IsWhite, LeadLength;
    var n := LeadLength(s[..k]);
    if n > 0 {
      LeadLengthExtended(s, k);
      assert s[..k][..n] == s[..n];
    }
  }

  lemma LeadLengthExtended(s: string, k: nat)
    requires k <= |s| && LeadLength(s[..k]) > 0
    ensures LeadLength(s) == LeadLength(s[..k])
  {
    assert forall i :: 0 <= i < k ==> s[..k][i] == s[i];
  }

  /** Trimming takes white characters off both ends, and all of them. */
  lemma TrimExactly(s: string) returns (before: string, after: string)
    ensures s == before + Trim(s) + after && AllWhite(before) && AllWhite(after)
    ensures WhitePrefix(Trim(s)) == 0 && WhiteSuffix(Trim(s)) == 0
  {
    hide IsWhite, LeadLength, AllWhite, WhitePrefix, WhiteSuffix, TrimStart, TrimEnd;
    before := TrimStartExactly(s);
    after := TrimEndExactly(TrimStart(s));
    assert Trim(s) == TrimStart(s)[..|Trim(s)|];
    WhitePrefixExtends(TrimStart(s), |Trim(s)|);
  }

  lemma {:induction false} WhiteVanishes(s: string)
    requires AllWhite(s)
    ensures TrimStart(s) == ""
    decreases |s|
  {
    hide *;
    TrimStartStep(s);
    if s != "" {
      var k := AllWhiteStarts(s);
      WhiteVanishes(s[k..]);
    }
  }

  lemma AllWhiteStarts(s: string) returns (k: nat)
    requires AllWhite(s) && s != ""
    ensures 1 <= k <= |s| && k == WhitePrefix(s) && AllWhite(s[k..])
  {
    k :| 1 <= k <= |s| && IsWhite(s[..k]) && AllWhite(s[k..]);
    WhiteIsCharacter(s[..k]);
    assert s[..k][..k] == s[..k];
    WhitePrefixExtends(s, k);
  }

  lemma {:induction false} AllWhiteConcat(a: string, b: string)
    requires AllWhite(a) && AllWhite(b)
    ensures AllWhite(a + b)
    decreases |a|
  {
    hide IsWhite;
    if a == "" {
      assert a + b == b;
    } else {
      var k :| 1 <= k <= |a| && IsWhite(a[..k]) && AllWhite(a[k..]);
      AllWhiteConcat(a[k..], b);
      assert (a + b)[..k] == a[..k] && (a + b)[k..] == a[k..] + b;
    }
  }

  /** Nothing is left exactly of texts of white characters. */
  lemma BlankExactly(s: string)
    ensures Trim(s) == "" <==> AllWhite(s)
  {
    hide AllWhite, TrimStart, TrimEnd;
    var before, after := TrimExactly(s);
    if Trim(s) == "" {
      assert before + Trim(s) + after == before + after;
      AllWhiteConcat(before, after);
    }
    if AllWhite(s) {
      WhiteVanishes(s);
      TrimEndStep("");
    }
  }

  /** A text without white space at its ends is left alone; in particular trimming twice is trimming once. */
  lemma TrimIdempotent(s: string)
    ensures WhitePrefix(s) == 0 && WhiteSuffix(s) == 0 ==> Trim(s) == s
    ensures Trim(Trim(s)) == Trim(s)
  {
    var _, _ := TrimExactly(s);
    hide WhitePrefix, WhiteSuffix;
  }

  // ---------------------------------------------------------------- broken characters

  lemma TruncatedLength(w: string, k: nat, rest: string)
    requires 1 <= k < |w| && LeadLength(w) == |w|
    requires rest == "" || !IsContinuation(rest[0])
    ensures LeadLength(w[..k] + rest) == 0 && Percent.BrokenLength(w[..k] + rest) == k
  {
    var s := w[..k] + rest;
    assert forall i :: 0 <= i < k ==> s[i] == w[i];
    assert |s| > k ==> s[k] == rest[0];
  }

  /** The lossy conversion turns a character that breaks off, after however many of its bytes, into one U+FFFD. */
  lemma TruncatedIsOneReplacement(w: string, k: nat, rest: string)
    requires 1 <= k < |w| && LeadLength(w) == |w|
    requires rest == "" || !IsContinuation(rest[0])
    ensures Percent.Lossy(w[..k] + rest) == "\U{EF}\U{BF}\U{BD}" + Percent.Lossy(rest)
  {
    TruncatedLength(w, k, rest);
    hide LeadLength, Percent.BrokenLength, IsContinuation;
    assert (w[..k] + rest)[k..] == rest;
  }

  /** A byte that can start no character is one broken piece. */
  lemma StrayByteIsOneReplacement(c: char, rest: string)
    requires 0x80 <= c as int < 0xC2 || 0xF5 <= c as int < 0x100
    ensures Percent.Lossy([c] + rest) == "\U{EF}\U{BF}\U{BD}" + Percent.Lossy(rest)
  {
    var s := [c] + rest;
    assert LeadLength(s) == 0 && Percent.BrokenLength(s) == 1 && s[1..] == rest;
    hide LeadLength, Percent.BrokenLength;
  }
}
