/**
 * Shell-style matching as done by Python's `fnmatch.fnmatchcase` for
 * patterns whose only wildcard is `*` (any run of characters, separators
 * included); every other pattern character matches itself. The whole
 * string must match.
 */
module Glob {
  import opened Paths

  predicate NoStar(lit: string) {
    forall i :: 0 <= i < |lit| ==> lit[i] != '*'
  }

  function Match(pat: string, s: string): bool
    decreases |pat| + |s|
  {
    if pat == [] then s == []
    else if pat[0] == '*' then Match(pat[1..], s) || (s != [] && Match(pat, s[1..]))
    else s != [] && s[0] == pat[0] && Match(pat[1..], s[1..])
  }

  /** A lone `*` matches every string. */
  lemma {:induction false} MatchStarAll(s: string)
    ensures Match("*", s)
    decreases |s|
  {
    if s != [] {
      MatchStarAll(s[1..]);
    }
  }

  /** A star-free head of a pattern must match the head of the string literally. */
  lemma {:induction false} MatchLiteralHead(lit: string, rest: string, s: string)
    requires NoStar(lit)
    ensures Match(lit + rest, s) <==> StartsWith(s, lit) && Match(rest, s[|lit|..])
    decreases |lit|
  {
    if lit != [] {
      var pat := lit + rest;
      assert pat[0] == lit[0] && pat[1..] == lit[1..] + rest;
      if s != [] {
        MatchLiteralHead(lit[1..], rest, s[1..]);
        if |lit| <= |s| {
          assert s[1..][|lit| - 1..] == s[|lit|..];
          assert s[..|lit|] == [s[0]] + s[1..][..|lit| - 1];
          assert lit == [lit[0]] + lit[1..];
        }
      }
    } else {
      assert lit + rest == rest;
    }
  }

  /** `lit*` matches exactly the strings that begin with `lit`. */
  lemma PrefixPattern(lit: string, s: string)
    requires NoStar(lit)
    ensures Match(lit + "*", s) <==> StartsWith(s, lit)
  {
    MatchLiteralHead(lit, "*", s);
    if |lit| <= |s| {
      MatchStarAll(s[|lit|..]);
    }
  }

  /** A leading `*` lets the rest of the pattern match any suffix. */
  lemma {:induction false} LeadingStar(pat: string, s: string)
    ensures Match("*" + pat, s) <==> exists i :: 0 <= i <= |s| && Match(pat, s[i..])
    decreases |s|
  {
    var p := "*" + pat;
    assert p[0] == '*' && p[1..] == pat;
    if s == [] {
      assert Match(pat, s) <==> Match(pat, s[0..]);
    } else {
      LeadingStar(pat, s[1..]);
      if Match(p, s) {
        if Match(pat, s) {
          assert s[0..] == s;
        } else {
          var i :| 0 <= i <= |s[1..]| && Match(pat, s[1..][i..]);
          assert s[1..][i..] == s[i + 1..];
        }
      }
      if exists i :: 0 <= i <= |s| && Match(pat, s[i..]) {
        var i :| 0 <= i <= |s| && Match(pat, s[i..]);
        if i == 0 {
          assert s[0..] == s;
        } else {
          assert s[1..][i - 1..] == s[i..];
        }
      }
    }
  }

  /** `*lit*` matches exactly the strings that contain `lit`. */
  lemma InfixPattern(lit: string, s: string)
    requires NoStar(lit)
    ensures Match("*" + lit + "*", s) <==> Contains(s, lit)
  {
    assert "*" + lit + "*" == "*" + (lit + "*");
    LeadingStar(lit + "*", s);
    forall i | 0 <= i <= |s|
      ensures Match(lit + "*", s[i..]) <==> StartsWith(s[i..], lit)
    {
      PrefixPattern(lit, s[i..]);
    }
  }
}
