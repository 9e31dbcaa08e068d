/**
 Rust strings, modelled as the bytes of their UTF-8 encoding: a `string` here holds one
 byte per element, and `IsUtf8` says that the bytes form a valid Rust string. The functions
 below are the parts of Rust's `str` that the modelled code relies on.
 */
module Text {

  datatype Option<+T> = None | Some(value: T) {
    function GetOr(default: T): T {
      if Some? then value else default
    }
  }

  /** The value of a key, None when it is absent. */
  function Lookup(m: map<string, string>, key: string): Option<string> {
    if key in m then Some(m[key]) else None
  }

  predicate Distinct(names: seq<string>) {
    forall i, j :: 0 <= i < j < |names| ==> names[i] != names[j]
  }

  predicate AllBytes(s: string) {
    forall i :: 0 <= i < |s| ==> s[i] as int < 256
  }

  predicate AllAscii(s: string) {
    forall i :: 0 <= i < |s| ==> s[i] as int < 128
  }

  // ---------------------------------------------------------------- UTF-8

  predicate IsContinuation(c: char) {
    0x80 <= c as int <= 0xBF
  }

  /** The length of the well-formed UTF-8 character at the start of `s`; 0 if there is none. */
  function LeadLength(s: string): (n: nat)
    ensures n <= 4 && n <= |s|
    ensures forall i :: 1 <= i < n ==> IsContinuation(s[i])
    ensures n > 0 ==> !IsContinuation(s[0])
    ensures AllBytes(s[..n])
  {
    if s == "" then 0 else
    var b0 := s[0] as int;
    if b0 <= 0x7F then 1
    else if 0xC2 <= b0 <= 0xDF then
      if |s| >= 2 && IsContinuation(s[1]) then 2 else 0
    else if 0xE0 <= b0 <= 0xEF then
      if |s| >= 3 && SecondByteFits(b0, s[1]) && IsContinuation(s[2]) then 3 else 0
    else if 0xF0 <= b0 <= 0xF4 then
      if |s| >= 4 && SecondByteFits(b0, s[1]) && IsContinuation(s[2]) && IsContinuation(s[3]) then 4 else 0
    else 0
  }

  /** The second byte of a three- or four-byte character: no overlong forms, no surrogates, nothing above U+10FFFF. */
  predicate SecondByteFits(b0: int, c: char) {
    && IsContinuation(c)
    && (b0 == 0xE0 ==> 0xA0 <= c as int)
    && (b0 == 0xED ==> c as int <= 0x9F)
    && (b0 == 0xF0 ==> 0x90 <= c as int)
    && (b0 == 0xF4 ==> c as int <= 0x8F)
  }

  predicate IsUtf8(s: string)
    ensures IsUtf8(s) ==> AllBytes(s)
    decreases |s|
  {
    assert LeadLength(s) > 0 ==> s == s[..LeadLength(s)] + s[LeadLength(s)..];
    s == "" || (LeadLength(s) > 0 && IsUtf8(s[LeadLength(s)..]))
  }

  lemma LeadLengthPrefix(a: string, b: string)
    requires LeadLength(a) > 0
    ensures LeadLength(a + b) == LeadLength(a)
  {
    assert forall i :: 0 <= i < |a| ==> (a + b)[i] == a[i];
  }

  lemma {:induction false} Utf8Concat(a: string, b: string)
    requires IsUtf8(a) && IsUtf8(b)
    ensures IsUtf8(a + b)
    decreases |a|
  {
    hide LeadLength;
    if a == "" {
      assert a + b == b;
    } else {
      var n := LeadLength(a);
      LeadLengthPrefix(a, b);
      assert (a + b)[n..] == a[n..] + b;
      Utf8Concat(a[n..], b);
    }
  }

  lemma Utf8Concat3(a: string, b: string, c: string)
    requires IsUtf8(a) && IsUtf8(b) && IsUtf8(c)
    ensures IsUtf8(a + b + c)
  {
    hide IsUtf8;
    Utf8Concat(a, b);
    Utf8Concat(a + b, c);
  }

  lemma {:induction false} AsciiIsUtf8(s: string)
    requires AllAscii(s)
    ensures IsUtf8(s)
    decreases |s|
  {
    if s != "" {
      assert LeadLength(s) == 1;
      AsciiIsUtf8(s[1..]);
    }
  }

  lemma LeadLengthTruncated(s: string, k: nat)
    requires 0 < LeadLength(s) <= k <= |s|
    ensures LeadLength(s[..k]) == LeadLength(s)
  {
    assert forall i :: 0 <= i < k ==> s[..k][i] == s[i];
  }

  /** Cutting a whole character `w` off the end of a valid string leaves a valid string. */
  lemma {:induction false} Utf8DropLast(s: string, w: string)
    requires IsUtf8(s)
    requires w != "" && LeadLength(w) == |w|
    requires |w| <= |s| && s[|s| - |w|..] == w
    ensures IsUtf8(s[..|s| - |w|])
    decreases |s|
  {
    hide LeadLength;
    var n := LeadLength(s);
    var k := |s| - |w|;
    assert s[k] == w[0];
    if k == 0 {
    } else if k < n {
      assert false;
    } else {
      var rest := s[n..];
      assert rest[|rest| - |w|..] == w;
      LeadLengthTruncated(s, k);
      assert IsUtf8(s[..k][n..]) by {
        Utf8DropLast(rest, w);
        assert s[..k][n..] == rest[..|rest| - |w|];
      }
    }
  }

  // ---------------------------------------------------------------- whitespace

  /** One Unicode White_Space character, as bytes. */
  predicate IsWhite(w: string) {
    if |w| == 1 then
      0x09 <= w[0] as int <= 0x0D || w[0] as int == 0x20
    else if |w| == 2 then
      w[0] as int == 0xC2 && (w[1] as int == 0x85 || w[1] as int == 0xA0)
    else if |w| == 3 then
      var (b0, b1, b2) := (w[0] as int, w[1] as int, w[2] as int);
      || (b0 == 0xE1 && b1 == 0x9A && b2 == 0x80)
      || (b0 == 0xE2 && b1 == 0x80 && (0x80 <= b2 <= 0x8A || b2 == 0xA8 || b2 == 0xA9 || b2 == 0xAF))
      || (b0 == 0xE2 && b1 == 0x81 && b2 == 0x9F)
      || (b0 == 0xE3 && b1 == 0x80 && b2 == 0x80)
    else
      false
  }

  lemma WhiteIsCharacter(w: string)
    requires IsWhite(w)
    ensures w != "" && LeadLength(w) == |w|
  {
  }

  function WhitePrefix(s: string): (n: nat)
    ensures n <= |s|
  {
    if LeadLength(s) > 0 && IsWhite(s[..LeadLength(s)]) then LeadLength(s) else 0
  }

  function WhiteSuffix(s: string): (n: nat)
    ensures n <= |s|
    ensures n > 0 ==> IsWhite(s[|s| - n..])
  {
    hide IsWhite;
    if |s| >= 1 && IsWhite(s[|s| - 1..]) then 1
    else if |s| >= 2 && IsWhite(s[|s| - 2..]) then 2
    else if |s| >= 3 && IsWhite(s[|s| - 3..]) then 3
    else 0
  }

  function TrimStart(s: string): string
    decreases |s|
  {
    if WhitePrefix(s) > 0 then TrimStart(s[WhitePrefix(s)..]) else s
  }

  function TrimEnd(s: string): string
    decreases |s|
  {
    if WhiteSuffix(s) > 0 then TrimEnd(s[..|s| - WhiteSuffix(s)]) else s
  }

  function Trim(s: string): string {
    TrimEnd(TrimStart(s))
  }

  predicate IsPlainAscii(c: char) {
    0x20 < c as int < 0x7F
  }

  /** A text that starts and ends with a visible ASCII character is already trimmed. */
  lemma TrimVisible(s: string)
    requires s != "" && IsPlainAscii(s[0]) && IsPlainAscii(s[|s| - 1])
    ensures Trim(s) == s
  {
    assert WhitePrefix(s) == 0;
    assert WhiteSuffix(s) == 0;
  }

  lemma {:induction false} TrimStartUtf8(s: string)
    requires IsUtf8(s)
    ensures IsUtf8(TrimStart(s))
    decreases |s|
  {
    if WhitePrefix(s) > 0 {
      TrimStartUtf8(s[WhitePrefix(s)..]);
    }
  }

  lemma {:induction false} TrimEndUtf8(s: string)
    requires IsUtf8(s)
    ensures IsUtf8(TrimEnd(s))
    decreases |s|
  {
    hide LeadLength, IsWhite;
    var n := WhiteSuffix(s);
    if n > 0 {
      assert IsUtf8(s[..|s| - n]) by {
        WhiteIsCharacter(s[|s| - n..]);
        Utf8DropLast(s, s[|s| - n..]);
      }
      TrimEndUtf8(s[..|s| - n]);
    }
  }

  lemma TrimUtf8(s: string)
    requires IsUtf8(s)
    ensures IsUtf8(Trim(s))
  {
    TrimStartUtf8(s);
    TrimEndUtf8(TrimStart(s));
  }

  // ---------------------------------------------------------------- searching and splitting

  predicate StartsWith(s: string, prefix: string) {
    |prefix| <= |s| && s[..|prefix|] == prefix
  }

  predicate EndsWith(s: string, suffix: string) {
    |suffix| <= |s| && s[|s| - |suffix|..] == suffix
  }

  function DropCarriageReturn(line: string): string {
    if EndsWith(line, "\r") then line[..|line| - 1] else line
  }

  predicate OccursAt(s: string, sep: string, i: nat) {
    i + |sep| <= |s| && forall j :: 0 <= j < |sep| ==> s[i + j] == sep[j]
  }

  function FindFrom(s: string, sep: string, from: nat): (r: Option<nat>)
    ensures r.Some? ==> from <= r.value && OccursAt(s, sep, r.value)
    ensures forall i: nat :: from <= i && OccursAt(s, sep, i) ==> r.Some? && r.value <= i
    decreases |s| - from
  {
    if from + |sep| > |s| then None
    else if OccursAt(s, sep, from) then Some(from)
    else FindFrom(s, sep, from + 1)
  }

  /** The first place where `sep` occurs in `s`, or None. */
  function Find(s: string, sep: string): Option<nat> {
    FindFrom(s, sep, 0)
  }

  /** `str::split_once` */
  function SplitOnce(s: string, sep: string): (r: Option<(string, string)>)
    ensures r.Some? ==> s == r.value.0 + sep + r.value.1
  {
    match Find(s, sep)
    case None => None
    case Some(i) => Some((s[..i], s[i + |sep|..]))
  }

  lemma OccursBetween(a: string, sep: string, b: string)
    ensures OccursAt(a + sep + b, sep, |a|)
  {
    var s := a + sep + b;
    forall j | 0 <= j < |sep| ensures s[|a| + j] == sep[j] {
    }
  }

  lemma SplitOnceAt(a: string, sep: string, b: string)
    requires forall i: nat :: i < |a| ==> !OccursAt(a + sep + b, sep, i)
    ensures SplitOnce(a + sep + b, sep) == Some((a, b))
  {
    var s := a + sep + b;
    OccursBetween(a, sep, b);
    hide OccursAt;
    assert Find(s, sep) == Some(|a|);
    assert s[|a| + |sep|..] == b && s[..|a|] == a;
  }

  lemma OccursAtChar(s: string, c: char, i: nat)
    ensures OccursAt(s, [c], i) <==> i < |s| && s[i] == c
  {
    if i < |s| && s[i] == c {
      assert forall j :: 0 <= j < |[c]| ==> s[i + j] == [c][j];
    }
    if OccursAt(s, [c], i) {
      assert s[i + 0] == [c][0];
    }
  }

  lemma OccursAtPair(s: string, c: char, d: char, i: nat)
    ensures OccursAt(s, [c, d], i) <==> i + 1 < |s| && s[i] == c && s[i + 1] == d
  {
    if i + 1 < |s| && s[i] == c && s[i + 1] == d {
      assert forall j :: 0 <= j < |[c, d]| ==> s[i + j] == [c, d][j];
    }
    if OccursAt(s, [c, d], i) {
      assert s[i + 0] == [c, d][0] && s[i + 1] == [c, d][1];
    }
  }

  lemma SplitOnceChar(a: string, c: char, b: string)
    requires c !in a
    ensures SplitOnce(a + [c] + b, [c]) == Some((a, b))
  {
    forall i: nat | i < |a| ensures !OccursAt(a + [c] + b, [c], i) {
      OccursAtChar(a + [c] + b, c, i);
    }
    SplitOnceAt(a, [c], b);
  }

  lemma SplitOnceNone(s: string, c: char)
    requires c !in s
    ensures SplitOnce(s, [c]) == None
  {
    forall i: nat ensures !OccursAt(s, [c], i) {
      OccursAtChar(s, c, i);
    }
  }

  /** `str::rsplit_once` for a one-byte separator */
  function RSplitOnce(s: string, c: char): (r: Option<(string, string)>)
    ensures r.Some? ==> s == r.value.0 + [c] + r.value.1 && c !in r.value.1
    ensures r.None? ==> c !in s
    decreases |s|
  {
    if s == "" then None
    else if s[|s| - 1] == c then Some((s[..|s| - 1], ""))
    else
      match RSplitOnce(s[..|s| - 1], c)
      case None => None
      case Some((a, b)) => Some((a, b + [s[|s| - 1]]))
  }

  lemma {:induction false} RSplitOnceAt(a: string, c: char, b: string)
    requires c !in b
    ensures RSplitOnce(a + [c] + b, c) == Some((a, b))
    decreases |b|
  {
    var s := a + [c] + b;
    if b == "" {
      assert s[..|s| - 1] == a;
    } else {
      var init := b[..|b| - 1];
      RSplitOnceAt(a, c, init);
      assert s[..|s| - 1] == a + [c] + init;
      assert b == init + [b[|b| - 1]];
    }
  }

  /** `str::split` for a one-byte separator: always at least one piece. */
  function Split(s: string, c: char): (parts: seq<string>)
    ensures parts != []
    ensures forall p :: p in parts ==> c !in p
    decreases |s|
  {
    if s == "" then [""]
    else
      var rest := Split(s[1..], c);
      if s[0] == c then [""] + rest
      else [[s[0]] + rest[0]] + rest[1..]
  }

  /** `[..].join(c)` */
  function Join(parts: seq<string>, c: char): string {
    if parts == [] then ""
    else if |parts| == 1 then parts[0]
    else parts[0] + [c] + Join(parts[1..], c)
  }

  lemma {:induction false} SplitFirst(a: string, c: char, rest: string)
    requires c !in a
    ensures Split(a + [c] + rest, c) == [a] + Split(rest, c)
    decreases |a|
  {
    var s := a + [c] + rest;
    if a == "" {
      assert s[1..] == rest;
    } else {
      assert s[1..] == a[1..] + [c] + rest;
      SplitFirst(a[1..], c, rest);
      assert [s[0]] + a[1..] == a;
    }
  }

  lemma {:induction false} SplitSingle(a: string, c: char)
    requires c !in a
    ensures Split(a, c) == [a]
    decreases |a|
  {
    if a != "" {
      SplitSingle(a[1..], c);
      assert [a[0]] + a[1..] == a;
    }
  }

  /** A prefix never has more pieces. */
  lemma {:induction false} SplitPrefix(a: string, b: string, c: char)
    ensures |Split(a, c)| <= |Split(a + b, c)|
    decreases |a|
  {
    if a != "" {
      assert (a + b)[1..] == a[1..] + b;
      SplitPrefix(a[1..], b, c);
    }
  }

  lemma {:induction false} JoinSnoc(parts: seq<string>, last: string, c: char)
    requires parts != []
    ensures Join(parts + [last], c) == Join(parts, c) + [c] + last
    decreases |parts|
  {
    assert (parts + [last])[1..] == parts[1..] + [last];
    if |parts| > 1 {
      JoinSnoc(parts[1..], last, c);
      assert parts[0] + [c] + (Join(parts[1..], c) + [c] + last) == (parts[0] + [c] + Join(parts[1..], c)) + [c] + last;
    }
  }

  /** Splitting undoes joining when no piece holds the separator. */
  lemma {:induction false} SplitJoin(parts: seq<string>, c: char)
    requires parts != []
    requires forall p :: p in parts ==> c !in p
    ensures Split(Join(parts, c), c) == parts
    decreases |parts|
  {
    if |parts| == 1 {
      SplitSingle(parts[0], c);
    } else {
      SplitJoin(parts[1..], c);
      SplitFirst(parts[0], c, Join(parts[1..], c));
    }
  }

  // ---------------------------------------------------------------- numbers and letter case

  function Digit(n: nat): char
    requires n < 10
  {
    ('0' as int + n) as char
  }

  predicate IsDigit(c: char) {
    '0' <= c <= '9'
  }

  /** Decimal printing, as `format!("{}", n)` does it. */
  function Decimal(n: nat): (s: string)
    ensures s != "" && forall i :: 0 <= i < |s| ==> IsDigit(s[i])
  {
    if n < 10 then [Digit(n)] else Decimal(n / 10) + [Digit(n % 10)]
  }

  function DigitsValue(s: string): Option<nat>
    decreases |s|
  {
    if s == "" then Some(0)
    else if !IsDigit(s[|s| - 1]) then None
    else
      match DigitsValue(s[..|s| - 1])
      case None => None
      case Some(v) => Some(v * 10 + (s[|s| - 1] as int - '0' as int))
  }

  /** `str::parse::<u16>`: an optional '+', then digits, within range. */
  function ParseU16(s: string): (r: Option<nat>)
    ensures r.Some? ==> r.value < 0x1_0000
  {
    var digits := if StartsWith(s, "+") then s[1..] else s;
    if digits == "" then None
    else
      match DigitsValue(digits)
      case None => None
      case Some(v) => if v < 0x1_0000 then Some(v) else None
  }

  lemma {:induction false} DecimalValue(n: nat)
    ensures DigitsValue(Decimal(n)) == Some(n)
  {
    var s := Decimal(n);
    if n < 10 {
      assert s[..|s| - 1] == "";
    } else {
      DecimalValue(n / 10);
      assert s[..|s| - 1] == Decimal(n / 10);
    }
  }

  lemma ParseDecimal(n: nat)
    requires n < 0x1_0000
    ensures ParseU16(Decimal(n)) == Some(n)
  {
    DecimalValue(n);
    assert IsDigit(Decimal(n)[0]);
  }

  lemma DecimalInjective(m: nat, n: nat)
    requires Decimal(m) == Decimal(n)
    ensures m == n
  {
    DecimalValue(m);
    DecimalValue(n);
  }

  function UpperChar(c: char): char {
    if 'a' <= c <= 'z' then (c as int - 32) as char else c
  }

  /** `str::to_ascii_uppercase` */
  function ToUpper(s: string): (t: string)
    ensures |t| == |s|
  {
    seq(|s|, i requires 0 <= i < |s| => UpperChar(s[i]))
  }
}
