/**
 * Strings as sequences of Unicode scalar values: whitespace trimming,
 * ASCII case mapping, prefix and suffix tests, splitting and joining,
 * decimal rendering and the lexicographic order used for sorting.
 */
module Text {

  // ---------------------------------------------------------------------
  // Characters

  predicate IsAsciiDigit(c: char) {
    '0' <= c <= '9'
  }

  predicate AllDigits(s: string) {
    forall i :: 0 <= i < |s| ==> IsAsciiDigit(s[i])
  }

  predicate IsAsciiLower(c: char) {
    'a' <= c <= 'z'
  }

  predicate IsAsciiUpper(c: char) {
    'A' <= c <= 'Z'
  }

  function UpperChar(c: char): (r: char)
    ensures IsAsciiLower(c) ==> IsAsciiUpper(r) && r as int == c as int - 32
    ensures !IsAsciiLower(c) ==> r == c
  {
    if IsAsciiLower(c) then (c as int - 32) as char else c
  }

  function LowerChar(c: char): (r: char)
    ensures IsAsciiUpper(c) ==> IsAsciiLower(r) && r as int == c as int + 32
    ensures !IsAsciiUpper(c) ==> r == c
  {
    if IsAsciiUpper(c) then (c as int + 32) as char else c
  }

  /** Upper-cases the ASCII letters of s and leaves every other character alone. */
  function AsciiUpper(s: string): (r: string)
    ensures |r| == |s|
    ensures forall i :: 0 <= i < |s| ==> r[i] == UpperChar(s[i])
  {
    seq(|s|, i requires 0 <= i < |s| => UpperChar(s[i]))
  }

  /** Lower-cases the ASCII letters of s and leaves every other character alone. */
  function AsciiLower(s: string): (r: string)
    ensures |r| == |s|
    ensures forall i :: 0 <= i < |s| ==> r[i] == LowerChar(s[i])
  {
    seq(|s|, i requires 0 <= i < |s| => LowerChar(s[i]))
  }

  /** Upper-casing after lower-casing is the same as upper-casing alone. */
  lemma UpperOfLower(s: string)
    ensures AsciiUpper(AsciiLower(s)) == AsciiUpper(s)
  {
    assert forall i :: 0 <= i < |s| ==> UpperChar(LowerChar(s[i])) == UpperChar(s[i]);
  }

  /** Lower-casing after upper-casing is the same as lower-casing alone. */
  lemma LowerOfUpper(s: string)
    ensures AsciiLower(AsciiUpper(s)) == AsciiLower(s)
  {
    assert forall i :: 0 <= i < |s| ==> LowerChar(UpperChar(s[i])) == LowerChar(s[i]);
  }

  /** Lower-casing twice is lower-casing once. */
  lemma LowerIdempotent(s: string)
    ensures AsciiLower(AsciiLower(s)) == AsciiLower(s)
  {
    assert forall i :: 0 <= i < |s| ==> LowerChar(LowerChar(s[i])) == LowerChar(s[i]);
  }

  // ---------------------------------------------------------------------
  // Whitespace

  /**
   * The characters JavaScript's String.prototype.trim removes: the
   * WhiteSpace and LineTerminator productions of ECMAScript.
   */
  predicate IsJsWhitespace(c: char) {
    c == '\t' || c == '\n' || c == '\U{000B}' || c == '\U{000C}' || c == '\r' ||
    c == ' ' || c == '\U{00A0}' || c == '\U{1680}' ||
    ('\U{2000}' <= c <= '\U{200A}') ||
    c == '\U{2028}' || c == '\U{2029}' || c == '\U{202F}' || c == '\U{205F}' ||
    c == '\U{3000}' || c == '\U{FEFF}'
  }

  /** The characters Python's str.strip() removes (those for which str.isspace holds). */
  predicate IsPyWhitespace(c: char) {
    ('\t' <= c <= '\r') || ('\U{001C}' <= c <= '\U{001F}') ||
    c == ' ' || c == '\U{0085}' || c == '\U{00A0}' || c == '\U{1680}' ||
    ('\U{2000}' <= c <= '\U{200A}') ||
    c == '\U{2028}' || c == '\U{2029}' || c == '\U{202F}' || c == '\U{205F}' ||
    c == '\U{3000}'
  }

  function StripLeft(s: string, ws: char -> bool): (r: string)
    ensures |r| <= |s| && r == s[|s| - |r|..]
    ensures r == [] || !ws(r[0])
    ensures forall i :: 0 <= i < |s| - |r| ==> ws(s[i])
  {
    if s != [] && ws(s[0]) then
      var r := StripLeft(s[1..], ws);
      assert s[1..][|s| - 1 - |r|..] == s[|s| - |r|..];
      assert forall i :: 1 <= i < |s| - |r| ==> s[i] == s[1..][i - 1];
      r
    else s
  }

  function StripRight(s: string, ws: char -> bool): (r: string)
    ensures |r| <= |s| && r == s[..|r|]
    ensures r == [] || !ws(r[|r| - 1])
    ensures forall i :: |r| <= i < |s| ==> ws(s[i])
  {
    if s != [] && ws(s[|s| - 1]) then
      var r := StripRight(s[..|s| - 1], ws);
      assert s[..|s| - 1][..|r|] == s[..|r|];
      assert forall i :: |r| <= i < |s| - 1 ==> s[i] == s[..|s| - 1][i];
      r
    else s
  }

  /** Removes every leading and every trailing character satisfying ws. */
  function Strip(s: string, ws: char -> bool): (r: string)
    ensures r == [] || (!ws(r[0]) && !ws(r[|r| - 1]))
  {
    StripRight(StripLeft(s, ws), ws)
  }

  lemma {:induction false} StripLeftFixed(s: string, ws: char -> bool)
    requires s == [] || !ws(s[0])
    ensures StripLeft(s, ws) == s
  {
  }

  lemma {:induction false} StripRightFixed(s: string, ws: char -> bool)
    requires s == [] || !ws(s[|s| - 1])
    ensures StripRight(s, ws) == s
  {
  }

  /** A string that starts and ends with a non-whitespace character is its own strip. */
  lemma StripFixed(s: string, ws: char -> bool)
    requires s == [] || (!ws(s[0]) && !ws(s[|s| - 1]))
    ensures Strip(s, ws) == s
  {
    StripLeftFixed(s, ws);
    StripRightFixed(s, ws);
  }

  /** Stripping twice removes nothing more than stripping once. */
  lemma StripIdempotent(s: string, ws: char -> bool)
    ensures Strip(Strip(s, ws), ws) == Strip(s, ws)
  {
    StripFixed(Strip(s, ws), ws);
  }

  /** Strip yields the empty string exactly when every character is whitespace. */
  lemma StripEmptyIff(s: string, ws: char -> bool)
    ensures Strip(s, ws) == [] <==> forall i :: 0 <= i < |s| ==> ws(s[i])
  {
    var l := StripLeft(s, ws);
    if Strip(s, ws) == [] {
      forall i | 0 <= i < |s| ensures ws(s[i]) {
        if i >= |s| - |l| {
          assert l[i - (|s| - |l|)] == s[i];
        }
      }
    } else {
      var r := Strip(s, ws);
      assert r[0] == l[0] == s[|s| - |l|];
    }
  }

  function JsTrim(s: string): string {
    Strip(s, IsJsWhitespace)
  }

  function PyStrip(s: string): string {
    Strip(s, IsPyWhitespace)
  }

  /** ASCII case mapping never turns whitespace into non-whitespace or back. */
  lemma UpperPreservesStrip(s: string, ws: char -> bool)
    requires forall c :: ws(c) ==> !IsAsciiLower(c) && !IsAsciiUpper(c)
    requires Strip(s, ws) == s
    ensures Strip(AsciiUpper(s), ws) == AsciiUpper(s)
  {
    var u := AsciiUpper(s);
    if s != [] {
      assert !ws(s[0]) && !ws(s[|s| - 1]);
      assert u[0] == UpperChar(s[0]);
      assert u[|u| - 1] == UpperChar(s[|s| - 1]);
      assert !ws(u[0]) by {
        if IsAsciiLower(s[0]) { assert IsAsciiUpper(u[0]); } else { assert u[0] == s[0]; }
      }
      assert !ws(u[|u| - 1]) by {
        if IsAsciiLower(s[|s| - 1]) { assert IsAsciiUpper(u[|u| - 1]); } else { assert u[|u| - 1] == s[|s| - 1]; }
      }
    }
    StripFixed(u, ws);
  }

  /** The characters of s, each mapped by f. */
  function MapChars(f: char -> char, s: string): (r: string)
    ensures |r| == |s| && forall i :: 0 <= i < |s| ==> r[i] == f(s[i])
  {
    seq(|s|, i requires 0 <= i < |s| => f(s[i]))
  }

  lemma AsciiCaseIsMapChars(s: string)
    ensures AsciiUpper(s) == MapChars(UpperChar, s)
    ensures AsciiLower(s) == MapChars(LowerChar, s)
  {
  }

  /** Stripping commutes with a character mapping that keeps whitespace and non-whitespace apart. */
  lemma {:induction false} StripLeftCommutes(s: string, ws: char -> bool, f: char -> char)
    requires forall c :: ws(f(c)) == ws(c)
    ensures StripLeft(MapChars(f, s), ws) == MapChars(f, StripLeft(s, ws))
  {
    if s != [] && ws(s[0]) {
      assert MapChars(f, s)[1..] == MapChars(f, s[1..]);
      StripLeftCommutes(s[1..], ws, f);
    }
  }

  lemma {:induction false} StripRightCommutes(s: string, ws: char -> bool, f: char -> char)
    requires forall c :: ws(f(c)) == ws(c)
    ensures StripRight(MapChars(f, s), ws) == MapChars(f, StripRight(s, ws))
  {
    if s != [] && ws(s[|s| - 1]) {
      assert MapChars(f, s)[..|s| - 1] == MapChars(f, s[..|s| - 1]);
      StripRightCommutes(s[..|s| - 1], ws, f);
    }
  }

  lemma StripCommutes(s: string, ws: char -> bool, f: char -> char)
    requires forall c :: ws(f(c)) == ws(c)
    ensures Strip(MapChars(f, s), ws) == MapChars(f, Strip(s, ws))
  {
    StripLeftCommutes(s, ws, f);
    StripRightCommutes(StripLeft(s, ws), ws, f);
  }

  /** Python's strip commutes with ASCII case mapping. */
  lemma PyStripCommutesWithCase(s: string)
    ensures PyStrip(AsciiUpper(s)) == AsciiUpper(PyStrip(s))
    ensures PyStrip(AsciiLower(s)) == AsciiLower(PyStrip(s))
  {
    forall c: char ensures IsPyWhitespace(UpperChar(c)) == IsPyWhitespace(c) {
      if IsAsciiLower(c) {
        assert !IsPyWhitespace(c) && IsAsciiUpper(UpperChar(c));
      }
    }
    forall c: char ensures IsPyWhitespace(LowerChar(c)) == IsPyWhitespace(c) {
      if IsAsciiUpper(c) {
        assert !IsPyWhitespace(c) && IsAsciiLower(LowerChar(c));
      }
    }
    AsciiCaseIsMapChars(s);
    AsciiCaseIsMapChars(PyStrip(s));
    StripCommutes(s, IsPyWhitespace, UpperChar);
    StripCommutes(s, IsPyWhitespace, LowerChar);
  }

  lemma UpperIdempotent(s: string)
    ensures AsciiUpper(AsciiUpper(s)) == AsciiUpper(s)
  {
    assert forall i :: 0 <= i < |s| ==> UpperChar(UpperChar(s[i])) == UpperChar(s[i]);
  }

  // ---------------------------------------------------------------------
  // Prefixes, suffixes, containment, search

  predicate StartsWith(s: string, p: string) {
    |p| <= |s| && s[..|p|] == p
  }

  predicate EndsWith(s: string, p: string) {
    |p| <= |s| && s[|s| - |p|..] == p
  }

  /** True when p occurs somewhere in s as a contiguous substring. */
  predicate Contains(s: string, p: string)
    decreases |s|
  {
    StartsWith(s, p) || (s != [] && Contains(s[1..], p))
  }

  lemma {:induction false} ContainsAt(s: string, p: string, i: nat)
    requires i + |p| <= |s| && s[i..i + |p|] == p
    ensures Contains(s, p)
    decreases i
  {
    if i > 0 {
      assert s[1..][i - 1..i - 1 + |p|] == s[i..i + |p|];
      ContainsAt(s[1..], p, i - 1);
    }
  }

  /** A position where p occurs in s, when it occurs. */
  lemma {:induction false} ContainsIndex(s: string, p: string) returns (i: nat)
    requires Contains(s, p)
    ensures i + |p| <= |s| && s[i..i + |p|] == p
    decreases |s|
  {
    if StartsWith(s, p) {
      i := 0;
    } else {
      var j := ContainsIndex(s[1..], p);
      assert s[1..][j..j + |p|] == s[j + 1..j + 1 + |p|];
      i := j + 1;
    }
  }

  /** A text that contains p contains the first character of p. */
  lemma ContainsFirstChar(s: string, p: string)
    requires p != [] && Contains(s, p)
    ensures p[0] in s
  {
    var i := ContainsIndex(s, p);
    assert s[i] == s[i..i + |p|][0];
  }

  /** A text without the first character of p does not contain p. */
  lemma FirstCharAbsent(s: string, p: string)
    requires p != [] && p[0] !in s
    ensures !Contains(s, p)
  {
    if Contains(s, p) {
      ContainsFirstChar(s, p);
    }
  }

  /** The index of the first occurrence of c, or -1 (Python's str.find). */
  function FindFirst(s: string, c: char): (r: int)
    ensures r == -1 <==> c !in s
    ensures r != -1 ==> 0 <= r < |s| && s[r] == c && c !in s[..r]
  {
    if s == [] then -1
    else if s[0] == c then 0
    else
      var k := FindFirst(s[1..], c);
      if k == -1 then -1
      else
        assert s[..k + 1] == [s[0]] + s[1..][..k];
        k + 1
  }

  /** The index of the last occurrence of c, or -1 (Python's str.rfind). */
  function FindLast(s: string, c: char): (r: int)
    ensures r == -1 <==> c !in s
    ensures r != -1 ==> 0 <= r < |s| && s[r] == c && c !in s[r + 1..]
  {
    if s == [] then -1
    else if s[|s| - 1] == c then |s| - 1
    else
      var k := FindLast(s[..|s| - 1], c);
      assert k != -1 ==> s[k + 1..] == s[..|s| - 1][k + 1..] + [s[|s| - 1]];
      k
  }

  // ---------------------------------------------------------------------
  // Splitting and joining

  /** Joins the pieces of xs, putting sep between neighbours. */
  function Join(xs: seq<string>, sep: string): string {
    if |xs| == 0 then ""
    else if |xs| == 1 then xs[0]
    else xs[0] + sep + Join(xs[1..], sep)
  }

  /** The pieces of s between occurrences of sep (JavaScript's s.split(sep) for one character). */
  function Split(s: string, sep: char): (r: seq<string>)
    ensures |r| >= 1
    ensures forall i :: 0 <= i < |r| ==> sep !in r[i]
    ensures Join(r, [sep]) == s
  {
    if s == [] then [""]
    else
      var rest := Split(s[1..], sep);
      if s[0] == sep then
        [""] + rest
      else
        assert Join([[s[0]] + rest[0]] + rest[1..], [sep]) == [s[0]] + Join(rest, [sep]);
        [[s[0]] + rest[0]] + rest[1..]
  }

  lemma {:induction false} SplitNoSep(x: string, sep: char)
    requires sep !in x
    ensures Split(x, sep) == [x]
  {
    if x != [] {
      SplitNoSep(x[1..], sep);
    }
  }

  lemma {:induction false} SplitCons(x: string, sep: char, t: string)
    requires sep !in x
    ensures Split(x + [sep] + t, sep) == [x] + Split(t, sep)
  {
    if x == [] {
      assert x + [sep] + t == [sep] + t;
      assert ([sep] + t)[1..] == t;
    } else {
      var s := x + [sep] + t;
      assert s[1..] == x[1..] + [sep] + t;
      SplitCons(x[1..], sep, t);
      assert [x[0]] + x[1..] == x;
    }
  }

  /** Splitting what Join produced gives the pieces back when none contains the separator. */
  lemma {:induction false} SplitJoin(xs: seq<string>, sep: char)
    requires |xs| >= 1
    requires forall i :: 0 <= i < |xs| ==> sep !in xs[i]
    ensures Split(Join(xs, [sep]), sep) == xs
  {
    if |xs| == 1 {
      SplitNoSep(xs[0], sep);
    } else {
      SplitJoin(xs[1..], sep);
      SplitCons(xs[0], sep, Join(xs[1..], [sep]));
    }
  }

  // ---------------------------------------------------------------------
  // Decimal rendering

  function DigitChar(d: nat): (c: char)
    requires d < 10
    ensures IsAsciiDigit(c) && c as int - '0' as int == d
  {
    ('0' as int + d) as char
  }

  /** The decimal digits of n, with no leading zero. */
  function NatToDecimal(n: nat): (r: string)
    ensures |r| >= 1 && AllDigits(r)
    ensures (n < 10) <==> (|r| == 1)
  {
    if n < 10 then [DigitChar(n)] else NatToDecimal(n / 10) + [DigitChar(n % 10)]
  }

  /** Different numbers have different decimal renderings. */
  lemma {:induction false} NatToDecimalInjective(m: nat, n: nat)
    requires NatToDecimal(m) == NatToDecimal(n)
    ensures m == n
  {
    if m >= 10 && n >= 10 {
      var a, b := NatToDecimal(m), NatToDecimal(n);
      assert a[..|a| - 1] == NatToDecimal(m / 10);
      assert b[..|b| - 1] == NatToDecimal(n / 10);
      NatToDecimalInjective(m / 10, n / 10);
      assert a[|a| - 1] == DigitChar(m % 10);
      assert b[|b| - 1] == DigitChar(n % 10);
    } else if m < 10 && n < 10 {
      assert NatToDecimal(m)[0] == DigitChar(m);
    }
  }

  /** The decimal rendering of an integer, with a leading '-' when negative. */
  function IntToDecimal(i: int): string {
    if i < 0 then "-" + NatToDecimal(-i) else NatToDecimal(i)
  }

  // ---------------------------------------------------------------------
  // Lexicographic order by code point

  predicate StrLt(a: string, b: string)
    decreases |a|
  {
    if a == [] then b != []
    else if b == [] then false
    else if a[0] != b[0] then a[0] < b[0]
    else StrLt(a[1..], b[1..])
  }

  lemma {:induction false} StrLtIrreflexive(a: string)
    ensures !StrLt(a, a)
  {
    if a != [] {
      StrLtIrreflexive(a[1..]);
    }
  }

  lemma {:induction false} StrLtTransitive(a: string, b: string, c: string)
    requires StrLt(a, b) && StrLt(b, c)
    ensures StrLt(a, c)
  {
    if a != [] && b != [] && c != [] && a[0] == b[0] == c[0] {
      StrLtTransitive(a[1..], b[1..], c[1..]);
    }
  }

  lemma {:induction false} StrLtTotal(a: string, b: string)
    requires a != b
    ensures StrLt(a, b) || StrLt(b, a)
  {
    if a != [] && b != [] && a[0] == b[0] {
      assert a == [a[0]] + a[1..] && b == [b[0]] + b[1..];
      StrLtTotal(a[1..], b[1..]);
    }
  }

  lemma StrLtAsymmetric(a: string, b: string)
    requires StrLt(a, b)
    ensures !StrLt(b, a)
  {
    if StrLt(b, a) {
      StrLtTransitive(a, b, a);
      StrLtIrreflexive(a);
    }
  }
}
