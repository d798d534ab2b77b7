/** White space as ECMAScript defines it, and String.prototype.trim. */
module Text {

  /** The WhiteSpace and LineTerminator code points of ECMAScript; both `trim()` and the `\s` class of a
      regular expression use exactly this set. */
  predicate IsWhitespace(c: char)
  {
    var n := c as int;
    n == 0x09 || n == 0x0A || n == 0x0B || n == 0x0C || n == 0x0D || n == 0x20 ||
    n == 0xA0 || n == 0x1680 || (0x2000 <= n <= 0x200A) || n == 0x2028 || n == 0x2029 ||
    n == 0x202F || n == 0x205F || n == 0x3000 || n == 0xFEFF
  }

  predicate AllWhitespace(s: string)
  {
    forall k :: 0 <= k < |s| ==> IsWhitespace(s[k])
  }

  /** Drops the leading white space (String.prototype.trimStart). */
  function TrimStart(s: string): (r: string)
    ensures |r| <= |s|
  {
    if s != [] && IsWhitespace(s[0]) then TrimStart(s[1..]) else s
  }

  /** Drops the trailing white space (String.prototype.trimEnd). */
  function TrimEnd(s: string): (r: string)
    ensures |r| <= |s|
  {
    if s != [] && IsWhitespace(s[|s| - 1]) then TrimEnd(s[..|s| - 1]) else s
  }

  /** TrimStart removes exactly the leading run of white space: what is left is a suffix of `s` that
      does not start with white space, and everything cut off is white space. */
  lemma {:induction false} TrimStartCutsWhitespace(s: string)
    ensures var r := TrimStart(s);
      r == s[|s| - |r|..] && AllWhitespace(s[..|s| - |r|]) && (r != [] ==> !IsWhitespace(r[0]))
  {
    if s != [] && IsWhitespace(s[0]) {
      TrimStartCutsWhitespace(s[1..]);
      var r := TrimStart(s);
      assert s[1..][..|s| - 1 - |r|] == s[1..|s| - |r|];
      assert forall k :: 1 <= k < |s| - |r| ==> s[k] == s[1..][..|s| - 1 - |r|][k - 1];
    } else {
      assert s[..0] == [];
    }
  }

  /** TrimEnd removes exactly the trailing run of white space: what is left is a prefix of `s` that
      does not end with white space, and everything cut off is white space. */
  lemma {:induction false} TrimEndCutsWhitespace(s: string)
    ensures var r := TrimEnd(s);
      r == s[..|r|] && AllWhitespace(s[|r|..]) && (r != [] ==> !IsWhitespace(r[|r| - 1]))
  {
    if s != [] && IsWhitespace(s[|s| - 1]) {
      var p := s[..|s| - 1];
      TrimEndCutsWhitespace(p);
      var r := TrimEnd(s);
      assert r == p[..|r|];
      assert forall k :: |r| <= k < |s| - 1 ==> s[k] == p[|r|..][k - |r|];
    } else {
      assert s[|s|..] == [];
    }
  }

  /** `s.trim()`: no longer than `s`, and neither starting nor ending with white space
      (TrimIsInnerText places it inside `s`). */
  function Trim(s: string): (r: string)
    ensures |r| <= |s|
    ensures r != [] ==> !IsWhitespace(r[0]) && !IsWhitespace(r[|r| - 1])
  {
    TrimStartCutsWhitespace(s);
    TrimEndCutsWhitespace(TrimStart(s));
    TrimEnd(TrimStart(s))
  }

  /** `!s.trim()`: the trimmed string is the empty string, which is falsy. */
  predicate IsBlank(s: string)
    ensures IsBlank(s) <==> AllWhitespace(s)
  {
    TrimEmptyIffAllWhitespace(s);
    Trim(s) == []
  }

  /** Trimming leaves nothing exactly when every character of the value is white space. */
  lemma TrimEmptyIffAllWhitespace(s: string)
    ensures Trim(s) == [] <==> AllWhitespace(s)
  {
    var t := TrimStart(s);
    TrimStartCutsWhitespace(s);
    TrimEndCutsWhitespace(t);
    if t == [] {
      assert s[..|s|] == s;
    } else {
      assert !IsWhitespace(t[0]);
      assert s[|s| - |t|] == t[0];
      assert Trim(s) != [];
    }
  }

  /** Trimming keeps the inner text: what trim() returns is a contiguous piece of `s`, with white space
      (and only white space) cut from either end, and it neither starts nor ends with white space. */
  lemma TrimIsInnerText(s: string)
    ensures var r := Trim(s); var i := |s| - |TrimStart(s)|;
      i + |r| <= |s| && r == s[i..i + |r|] &&
      AllWhitespace(s[..i]) && AllWhitespace(s[i + |r|..]) &&
      (r != [] ==> !IsWhitespace(r[0]) && !IsWhitespace(r[|r| - 1]))
  {
    var t := TrimStart(s);
    var r := TrimEnd(t);
    var i := |s| - |t|;
    TrimStartCutsWhitespace(s);
    TrimEndCutsWhitespace(t);
    assert r == t[..|r|];
    assert t == s[i..];
    assert r == s[i..i + |r|];
    assert t[|r|..] == s[i + |r|..];
    if r != [] {
      assert r[0] == t[0];
    }
  }
}
