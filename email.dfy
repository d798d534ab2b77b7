/** The ad-hoc email shape check of script.js: the regular expression ^[^\s@]+@[^\s@]+\.[^\s@]+$
    written out as a predicate on characters. It is not the address syntax of RFC 5322. */
module Email {
  import opened Text

  /** A character of the class [^\s@]. */
  predicate ShapeChar(c: char)
  {
    !IsWhitespace(c) && c != '@'
  }

  predicate AllShape(s: string)
  {
    forall k :: 0 <= k < |s| ==> ShapeChar(s[k])
  }

  /** The index of the first '@' in `s`, or |s| when there is none. */
  function FirstAt(s: string): (i: nat)
    ensures i <= |s|
  {
    if s == [] then 0
    else if s[0] == '@' then 0
    else 1 + FirstAt(s[1..])
  }

  /** FirstAt finds the first '@': none comes before it, and there is one at it unless it is |s|. */
  lemma {:induction false} FirstAtIsFirst(s: string)
    ensures forall k :: 0 <= k < FirstAt(s) ==> s[k] != '@'
    ensures FirstAt(s) < |s| ==> s[FirstAt(s)] == '@'
  {
    if s != [] && s[0] != '@' {
      FirstAtIsFirst(s[1..]);
      assert forall k :: 1 <= k < FirstAt(s) ==> s[k] == s[1..][k - 1];
    }
  }

  /** The domain contains a '.' that is neither its first nor its last character. */
  predicate HasInnerDot(d: string)
  {
    exists k :: 0 < k < |d| - 1 && d[k] == '.'
  }

  /** `validateEmail(s)`: cut at the first '@'; the local part before it is non-empty, nothing in the
      value is white space, no second '@' follows, and the domain after it has a dot strictly inside. */
  predicate ValidateEmail(s: string)
    ensures ValidateEmail(s) ==> 5 <= |s| && !IsWhitespace(s[0]) && !IsWhitespace(s[|s| - 1])
  {
    var at := FirstAt(s);
    var ok := 0 < at < |s| && AllShape(s[..at]) && AllShape(s[at + 1..]) && HasInnerDot(s[at + 1..]);
    if ok then
      assert ShapeChar(s[..at][0]) && ShapeChar(s[at + 1..][|s| - at - 2]);
      ok
    else ok
  }

  /** One way the regular expression can match: `s[at]` is the literal '@', `s[dot]` the literal '.',
      and the three runs [^\s@]+ around them are non-empty. */
  ghost predicate MatchesAt(s: string, at: int, dot: int)
  {
    0 < at && at + 1 < dot && dot + 1 < |s| &&
    s[at] == '@' && s[dot] == '.' &&
    AllShape(s[..at]) && AllShape(s[at + 1..dot]) && AllShape(s[dot + 1..])
  }

  /** The regular expression, anchored at both ends, matches `s` (with whatever backtracking it needs). */
  ghost predicate MatchesPattern(s: string)
  {
    exists at, dot :: MatchesAt(s, at, dot)
  }

  /** The character-level check accepts exactly the strings the regular expression matches. */
  lemma ValidateEmailIffPattern(s: string)
    ensures ValidateEmail(s) <==> MatchesPattern(s)
  {
    FirstAtIsFirst(s);
    if ValidateEmail(s) {
      var at := FirstAt(s);
      var d := s[at + 1..];
      var k :| 0 < k < |d| - 1 && d[k] == '.';
      var dot := at + 1 + k;
      assert s[dot] == '.';
      assert s[at + 1..dot] == d[..k];
      assert s[dot + 1..] == d[k + 1..];
      assert MatchesAt(s, at, dot);
    }
    if MatchesPattern(s) {
      var at, dot :| MatchesAt(s, at, dot);
      assert forall k :: 0 <= k < at ==> s[..at][k] == s[k];
      assert FirstAt(s) == at;
      var d := s[at + 1..];
      assert d[dot - at - 1] == '.';
      assert HasInnerDot(d);
      assert forall k :: 0 <= k < |d| ==> ShapeChar(d[k]) by {
        forall k | 0 <= k < |d|
          ensures ShapeChar(d[k])
        {
          if k < dot - at - 1 {
            assert d[k] == s[at + 1..dot][k];
          } else if k > dot - at - 1 {
            assert d[k] == s[dot + 1..][k - (dot - at)];
          }
        }
      }
    }
  }

  /** The same check, stated as the decomposition s = L + "@" + D: L is non-empty, the value holds no
      white space and no '@' besides this one, and D has a dot that is neither first nor last. */
  lemma ValidateEmailSplits(s: string, l: string, d: string)
    requires s == l + "@" + d
    ensures ValidateEmail(s) <==>
      l != [] && AllShape(l) && AllShape(d) && HasInnerDot(d)
  {
    assert s[|l|] == '@';
    FirstAtIsFirst(s);
    if AllShape(l) {
      assert forall k :: 0 <= k < |l| ==> s[k] == l[k];
      assert FirstAt(s) == |l|;
      assert s[..|l|] == l;
      assert s[|l| + 1..] == d;
    } else {
      var k :| 0 <= k < |l| && !ShapeChar(l[k]);
      assert s[k] == l[k];
    }
  }

  /** A well-formed address is accepted. */
  lemma ValidateEmailAccepts()
    ensures ValidateEmail("a@b.co")
  {
    var good := "a@b.co";
    assert FirstAt(good) == 1;
    assert good[..1] == "a" && good[2..] == "b.co";
    assert "b.co"[1] == '.';
  }

  /** A domain without a dot, a space in the local part, the empty string, and a value with a leading
      space (the check sees the untrimmed value) are rejected. */
  lemma ValidateEmailRejects()
    ensures !ValidateEmail("a@b")
    ensures !ValidateEmail("a b@c.com")
    ensures !ValidateEmail("")
    ensures !ValidateEmail(" a@b.co")
  {
    assert FirstAt("a@b") == 1;
    var spaced := "a b@c.com";
    assert FirstAt(spaced) == 3;
    assert !ShapeChar(spaced[..3][1]);
    var padded := " a@b.co";
    assert FirstAt(padded) == 2;
    assert !ShapeChar(padded[..2][0]);
  }

  /** An accepted value is already trimmed, so for an accepted email it does not matter that the email
      check reads the raw value while the blank check reads the trimmed one. */
  lemma AcceptedEmailIsTrimmed(s: string)
    requires ValidateEmail(s)
    ensures Trim(s) == s && !IsBlank(s)
  {
    assert TrimStart(s) == s;
  }
}
