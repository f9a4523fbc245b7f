/** The JavaScript string operations the registration flow relies on: the
    whitespace class used both by `String.prototype.trim` and by the
    regular-expression class `\s`, trimming, and blank-string detection. */
module JsText {

  /** The code points of ECMAScript WhiteSpace and LineTerminator: tab,
      line feed, vertical tab, form feed, carriage return, space, no-break
      space, the Unicode space separators, line and paragraph separator,
      and the byte-order mark. Both `trim()` and `\s` use exactly this set. */
  const WhitespaceCodes: set<int> := {
    0x09, 0x0A, 0x0B, 0x0C, 0x0D, 0x20, 0xA0, 0x1680,
    0x2000, 0x2001, 0x2002, 0x2003, 0x2004, 0x2005, 0x2006, 0x2007, 0x2008, 0x2009, 0x200A,
    0x2028, 0x2029, 0x202F, 0x205F, 0x3000, 0xFEFF }

  predicate IsWhitespace(c: char) {
    c as int in WhitespaceCodes
  }

  /** The whitespace class as the ranges the standard lists: the control
      characters U+0009 to U+000D, the space separators U+2000 to U+200A,
      and eleven single code points. */
  lemma WhitespaceCodePoints(c: char)
    ensures var n := c as int;
      IsWhitespace(c) <==>
        (0x09 <= n <= 0x0D) || n == 0x20 || n == 0xA0 || n == 0x1680 ||
        (0x2000 <= n <= 0x200A) || n == 0x2028 || n == 0x2029 || n == 0x202F ||
        n == 0x205F || n == 0x3000 || n == 0xFEFF
  {
  }

  /** Printable ASCII other than the space is not whitespace. */
  lemma PrintableAsciiNotWhitespace(c: char)
    requires 0x20 < c as int < 0x7F
    ensures !IsWhitespace(c)
  {
    WhitespaceCodePoints(c);
  }

  predicate AllWhitespace(s: string) {
    forall i :: 0 <= i < |s| ==> IsWhitespace(s[i])
  }

  predicate NoWhitespace(s: string) {
    forall i :: 0 <= i < |s| ==> !IsWhitespace(s[i])
  }

  /** A string of printable ASCII characters other than the space holds no
      whitespace. */
  lemma PrintableAsciiNoWhitespace(s: string)
    requires forall i :: 0 <= i < |s| ==> 0x20 < s[i] as int < 0x7F
    ensures NoWhitespace(s)
  {
    forall i | 0 <= i < |s| ensures !IsWhitespace(s[i]) {
      PrintableAsciiNotWhitespace(s[i]);
    }
  }

  /** Drops the leading whitespace run (`trimStart`). */
  function TrimStart(s: string): (r: string)
    ensures |r| <= |s|
  {
    if s != [] && IsWhitespace(s[0]) then TrimStart(s[1..]) else s
  }

  /** Drops the trailing whitespace run (`trimEnd`). */
  function TrimEnd(s: string): (r: string)
    ensures |r| <= |s|
  {
    if s != [] && IsWhitespace(s[|s| - 1]) then TrimEnd(s[..|s| - 1]) else s
  }

  /** `s.trim()`. */
  function Trim(s: string): string {
    TrimEnd(TrimStart(s))
  }

  /** `!s.trim()`: the trimmed string is the empty, falsy string. */
  predicate IsBlank(s: string) {
    Trim(s) == []
  }

  /** `TrimStart` keeps a suffix, what it drops is all whitespace, and what
      it keeps does not start with whitespace. */
  lemma {:induction false} TrimStartSpec(s: string)
    ensures var r := TrimStart(s);
      r == s[|s| - |r|..] && AllWhitespace(s[..|s| - |r|]) &&
      (r == [] || !IsWhitespace(r[0]))
  {
    if s != [] && IsWhitespace(s[0]) {
      TrimStartSpec(s[1..]);
      var r := TrimStart(s);
      assert s[1..][|s| - 1 - |r|..] == s[|s| - |r|..];
      forall i | 0 <= i < |s| - |r| ensures IsWhitespace(s[i]) {
        if i > 0 {
          assert s[i] == s[1..][..|s| - 1 - |r|][i - 1];
        }
      }
    }
  }

  /** `TrimEnd` keeps a prefix, what it drops is all whitespace, and what
      it keeps does not end with whitespace. */
  lemma {:induction false} TrimEndSpec(s: string)
    ensures var r := TrimEnd(s);
      r == s[..|r|] && AllWhitespace(s[|r|..]) &&
      (r == [] || !IsWhitespace(r[|r| - 1]))
  {
    if s != [] && IsWhitespace(s[|s| - 1]) {
      var p := s[..|s| - 1];
      TrimEndSpec(p);
      var r := TrimEnd(s);
      assert p[..|r|] == s[..|r|];
      forall i | |r| <= i < |s| ensures IsWhitespace(s[i]) {
        if i < |s| - 1 {
          assert s[i] == p[|r|..][i - |r|];
        }
      }
    }
  }

  /** `trim` keeps a contiguous slice `s[i..j]` with whitespace only outside
      it and no whitespace at either end of it. */
  lemma TrimSpec(s: string)
    ensures exists i, j ::
      0 <= i <= j <= |s| && Trim(s) == s[i..j] && AllWhitespace(s[..i]) && AllWhitespace(s[j..])
    ensures Trim(s) == [] || (!IsWhitespace(Trim(s)[0]) && !IsWhitespace(Trim(s)[|Trim(s)| - 1]))
  {
    var t := TrimStart(s);
    TrimStartSpec(s);
    TrimEndSpec(t);
    var r := TrimEnd(t);
    var i := |s| - |t|;
    var j := i + |r|;
    assert t == s[i..] && r == t[..|r|];
    assert s[i..][..|r|] == s[i..j];
    assert Trim(s) == s[i..j];
    forall k | j <= k < |s| ensures IsWhitespace(s[k]) {
      assert s[k] == t[|r|..][k - j];
    }
    assert AllWhitespace(s[j..]);
  }

  /** A string trims to nothing exactly when every character is whitespace. */
  lemma BlankIffAllWhitespace(s: string)
    ensures IsBlank(s) <==> AllWhitespace(s)
  {
    var t := TrimStart(s);
    TrimStartSpec(s);
    TrimEndSpec(t);
    var k := |s| - |t|;
    assert s == s[..k] + t;
    assert t != [] ==> t[0] == s[k];
    assert |TrimEnd(t)| == 0 ==> t[|TrimEnd(t)|..] == t;
  }
}
