/**
 * Base 64 encoding with the standard alphabet and "=" padding (section 4
 * of RFC 4648), and the browser's btoa(), which encodes a string whose
 * characters are all at most U+00FF as the bytes of their codes.
 */
module Base64 {
  import opened Wrappers

  type Byte = b: int | 0 <= b < 256

  /** A 6-bit group, the value one base-64 character stands for. */
  type Sextet = s: int | 0 <= s < 64

  /** The character of a 6-bit group: "A".."Z", "a".."z", "0".."9", "+", "/" (Table 1 of RFC 4648). */
  function Char(s: Sextet): (c: char)
    ensures c != '='
  {
    if s < 26 then ('A' as int + s) as char
    else if s < 52 then ('a' as int + (s - 26)) as char
    else if s < 62 then ('0' as int + (s - 52)) as char
    else if s == 62 then '+'
    else '/'
  }

  predicate IsAlphabet(c: char) {
    ('A' <= c <= 'Z') || ('a' <= c <= 'z') || ('0' <= c <= '9') || c == '+' || c == '/'
  }

  /** The 6-bit group a character of the alphabet stands for. */
  function Value(c: char): (s: Sextet)
    requires IsAlphabet(c)
    ensures Char(s) == c
  {
    if 'A' <= c <= 'Z' then c as int - 'A' as int
    else if 'a' <= c <= 'z' then c as int - 'a' as int + 26
    else if '0' <= c <= '9' then c as int - '0' as int + 52
    else if c == '+' then 62
    else 63
  }

  lemma ValueOfChar(s: Sextet)
    ensures IsAlphabet(Char(s)) && Value(Char(s)) == s
  {
  }

  // ---------------------------------------------------------------------
  // Encoding: every 3 bytes become 4 characters; a final 1 or 2 bytes
  // become 2 or 3 characters followed by "==" or "=".

  function Encode3(a: Byte, b: Byte, c: Byte): string {
    [Char(a / 4), Char((a % 4) * 16 + b / 16), Char((b % 16) * 4 + c / 64), Char(c % 64)]
  }

  function Encode2(a: Byte, b: Byte): string {
    [Char(a / 4), Char((a % 4) * 16 + b / 16), Char((b % 16) * 4), '=']
  }

  function Encode1(a: Byte): string {
    [Char(a / 4), Char((a % 4) * 16), '=', '=']
  }

  function Encode(bs: seq<Byte>): (r: string)
    ensures |r| == 4 * ((|bs| + 2) / 3)
    ensures forall i :: 0 <= i < |r| ==> IsAlphabet(r[i]) || r[i] == '='
    decreases |bs|
  {
    if |bs| == 0 then ""
    else if |bs| == 1 then Encode1(bs[0])
    else if |bs| == 2 then Encode2(bs[0], bs[1])
    else
      var rest := Encode(bs[3..]);
      var head := Encode3(bs[0], bs[1], bs[2]);
      Encode3Alphabet(bs[0], bs[1], bs[2]);
      head + rest
  }

  lemma Encode3Alphabet(a: Byte, b: Byte, c: Byte)
    ensures forall i :: 0 <= i < 4 ==> IsAlphabet(Encode3(a, b, c)[i])
  {
    ValueOfChar(a / 4);
    ValueOfChar((a % 4) * 16 + b / 16);
    ValueOfChar((b % 16) * 4 + c / 64);
    ValueOfChar(c % 64);
  }

  // ---------------------------------------------------------------------
  // Decoding: the inverse, refusing a length that is not a multiple of 4,
  // a character outside the alphabet and padding anywhere but at the end.

  function DecodeFull(g: string): (r: Option<seq<Byte>>)
    requires |g| == 4
    ensures r.Some? ==> |r.value| == 3
  {
    if IsAlphabet(g[0]) && IsAlphabet(g[1]) && IsAlphabet(g[2]) && IsAlphabet(g[3]) then
      var s0, s1, s2, s3 := Value(g[0]), Value(g[1]), Value(g[2]), Value(g[3]);
      Some([s0 * 4 + s1 / 16, (s1 % 16) * 16 + s2 / 4, (s2 % 4) * 64 + s3])
    else None
  }

  function DecodeLast(g: string): (r: Option<seq<Byte>>)
    requires |g| == 4
    ensures r.Some? ==> 1 <= |r.value| <= 3
  {
    if g[2] == '=' && g[3] == '=' then
      if IsAlphabet(g[0]) && IsAlphabet(g[1]) then
        Some([Value(g[0]) * 4 + Value(g[1]) / 16])
      else None
    else if g[3] == '=' then
      if IsAlphabet(g[0]) && IsAlphabet(g[1]) && IsAlphabet(g[2]) then
        var s0, s1, s2 := Value(g[0]), Value(g[1]), Value(g[2]);
        Some([s0 * 4 + s1 / 16, (s1 % 16) * 16 + s2 / 4])
      else None
    else DecodeFull(g)
  }

  function Decode(s: string): (r: Option<seq<Byte>>)
    ensures r.Some? ==> |s| % 4 == 0
    decreases |s|
  {
    if |s| == 0 then Some([])
    else if |s| < 4 then None
    else if |s| == 4 then DecodeLast(s)
    else
      match DecodeFull(s[..4])
      case None => None
      case Some(head) =>
        match Decode(s[4..])
        case None => None
        case Some(rest) => Some(head + rest)
  }

  lemma Group3(a: Byte, b: Byte, c: Byte)
    ensures DecodeFull(Encode3(a, b, c)) == Some([a, b, c])
    ensures DecodeLast(Encode3(a, b, c)) == Some([a, b, c])
  {
    var g := Encode3(a, b, c);
    Group3Full(a, b, c);
    assert g[3] != '=';
  }

  lemma Group3Full(a: Byte, b: Byte, c: Byte)
    ensures DecodeFull(Encode3(a, b, c)) == Some([a, b, c])
  {
    var s0, s1, s2, s3 := a / 4, (a % 4) * 16 + b / 16, (b % 16) * 4 + c / 64, c % 64;
    var g := Encode3(a, b, c);
    ValueOfChar(s0);
    ValueOfChar(s1);
    ValueOfChar(s2);
    ValueOfChar(s3);
    assert Value(g[0]) == s0 && Value(g[1]) == s1 && Value(g[2]) == s2 && Value(g[3]) == s3;
    Reassemble3(a, b, c);
  }

  /** The arithmetic of a full group: the four 6-bit groups give the three bytes back. */
  lemma Reassemble3(a: Byte, b: Byte, c: Byte)
    ensures var s0, s1, s2, s3 := a / 4, (a % 4) * 16 + b / 16, (b % 16) * 4 + c / 64, c % 64;
      s0 * 4 + s1 / 16 == a && (s1 % 16) * 16 + s2 / 4 == b && (s2 % 4) * 64 + s3 == c
  {
    Split16(a % 4, b / 16);
    Split4(b % 16, c / 64);
    ByteParts(a);
    ByteParts(b);
    ByteParts(c);
  }

  lemma Split16(h: int, l: int)
    requires 0 <= h < 4 && 0 <= l < 16
    ensures (h * 16 + l) / 16 == h && (h * 16 + l) % 16 == l
  {
  }

  lemma Split4(h: int, l: int)
    requires 0 <= h < 16 && 0 <= l < 4
    ensures (h * 4 + l) / 4 == h && (h * 4 + l) % 4 == l
  {
  }

  /** A byte is its high bits and its low bits put together again. */
  lemma ByteParts(a: Byte)
    ensures (a / 4) * 4 + a % 4 == a
    ensures (a / 16) * 16 + a % 16 == a
    ensures (a / 64) * 64 + a % 64 == a
  {
  }

  lemma Group2(a: Byte, b: Byte)
    ensures DecodeLast(Encode2(a, b)) == Some([a, b])
  {
    var s0, s1, s2 := a / 4, (a % 4) * 16 + b / 16, (b % 16) * 4;
    ValueOfChar(s0);
    ValueOfChar(s1);
    ValueOfChar(s2);
    Split16(a % 4, b / 16);
    Split4(b % 16, 0);
    ByteParts(a);
    ByteParts(b);
  }

  lemma Group1(a: Byte)
    ensures DecodeLast(Encode1(a)) == Some([a])
  {
    ValueOfChar(a / 4);
    ValueOfChar((a % 4) * 16);
  }

  /** Decoding undoes encoding. */
  lemma {:induction false} DecodeEncode(bs: seq<Byte>)
    ensures Decode(Encode(bs)) == Some(bs)
    decreases |bs|
  {
    if |bs| <= 3 {
      DecodeEncodeShort(bs);
    } else {
      DecodeEncode(bs[3..]);
      ConsStep(bs);
    }
  }

  /** One more group in front keeps the round trip. */
  lemma ConsStep(bs: seq<Byte>)
    requires |bs| > 3
    requires Decode(Encode(bs[3..])) == Some(bs[3..])
    ensures Decode(Encode(bs)) == Some(bs)
  {
    FrontThree(bs);
    var g := Encode3(bs[0], bs[1], bs[2]);
    var t := Encode(bs[3..]);
    var x := [bs[0], bs[1], bs[2]];
    assert Encode(bs) == g + t by { EncodeCons(bs); }
    assert DecodeFull(g) == Some(x) by { Group3(bs[0], bs[1], bs[2]); }
    DecodeGroupThen(g, t, x, bs[3..]);
  }

  lemma FrontThree(bs: seq<Byte>)
    requires |bs| >= 3
    ensures bs == [bs[0], bs[1], bs[2]] + bs[3..]
  {
  }

  lemma DecodeEncodeShort(bs: seq<Byte>)
    requires |bs| <= 3
    ensures Decode(Encode(bs)) == Some(bs)
  {
    if |bs| == 1 {
      Group1(bs[0]);
      assert bs == [bs[0]];
    } else if |bs| == 2 {
      Round2(bs);
    } else if |bs| == 3 {
      Round3(bs);
    }
  }

  lemma Round2(bs: seq<Byte>)
    requires |bs| == 2
    ensures Decode(Encode(bs)) == Some(bs)
  {
    assert Encode(bs) == Encode2(bs[0], bs[1]);
    Group2(bs[0], bs[1]);
    assert bs == [bs[0], bs[1]];
  }

  lemma Round3(bs: seq<Byte>)
    requires |bs| == 3
    ensures Decode(Encode(bs)) == Some(bs)
  {
    assert Encode(bs) == Encode3(bs[0], bs[1], bs[2]) + Encode(bs[3..]);
    assert Encode(bs[3..]) == "";
    assert Encode(bs) == Encode3(bs[0], bs[1], bs[2]);
    Group3(bs[0], bs[1], bs[2]);
    assert bs == [bs[0], bs[1], bs[2]];
  }

  lemma EncodeCons(bs: seq<Byte>)
    requires |bs| > 3
    ensures Encode(bs) == Encode3(bs[0], bs[1], bs[2]) + Encode(bs[3..])
  {
  }

  /** A full group followed by more groups decodes to the group's bytes followed by theirs. */
  lemma DecodeGroupThen(g: string, t: string, x: seq<Byte>, y: seq<Byte>)
    requires |g| == 4 && |t| > 0
    requires DecodeFull(g) == Some(x) && Decode(t) == Some(y)
    ensures Decode(g + t) == Some(x + y)
  {
    assert (g + t)[..4] == g && (g + t)[4..] == t;
  }

  /** Different byte sequences have different encodings. */
  lemma EncodeInjective(xs: seq<Byte>, ys: seq<Byte>)
    requires Encode(xs) == Encode(ys)
    ensures xs == ys
  {
    DecodeEncode(xs);
    DecodeEncode(ys);
  }

  // ---------------------------------------------------------------------
  // btoa()

  predicate IsLatin1(s: string) {
    forall i :: 0 <= i < |s| ==> s[i] as int < 256
  }

  function Latin1Bytes(s: string): (r: seq<Byte>)
    requires IsLatin1(s)
    ensures |r| == |s| && forall i :: 0 <= i < |s| ==> r[i] == s[i] as int
  {
    seq(|s|, i requires 0 <= i < |s| => s[i] as int as Byte)
  }

  /** btoa(s): the encoding of the character codes, or InvalidCharacterError for a character above U+00FF. */
  function Btoa(s: string): (r: Result<string, string>)
    ensures r.Failure? <==> exists i :: 0 <= i < |s| && s[i] as int >= 256
    ensures r.Failure? ==> r.error == "InvalidCharacterError"
  {
    if IsLatin1(s) then Success(Encode(Latin1Bytes(s))) else Failure("InvalidCharacterError")
  }

  /** What btoa() produces decodes to the character codes of its input. */
  lemma BtoaDecodes(s: string)
    requires IsLatin1(s)
    ensures Btoa(s).Success?
    ensures Decode(Btoa(s).value) == Some(Latin1Bytes(s))
    ensures |Btoa(s).value| == 4 * ((|s| + 2) / 3)
  {
    DecodeEncode(Latin1Bytes(s));
  }
}
