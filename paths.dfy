/**
 * Paths as strings: the small part of Windows path handling (Python's
 * `os.path.join` and `os.path.basename` under `ntpath`) that the packer
 * relies on. Both `/` and `\` are separators; `join` inserts `\`.
 */
module Paths {

  /** The separator `join` inserts between two components. */
  const SEP: char := '\\'

  predicate IsSep(c: char) {
    c == '/' || c == '\\'
  }

  /** `s` begins with `prefix`. */
  predicate StartsWith(s: string, prefix: string) {
    |prefix| <= |s| && s[..|prefix|] == prefix
  }

  /** `sub` occurs somewhere inside `s`. */
  predicate Contains(s: string, sub: string) {
    exists i :: 0 <= i <= |s| && StartsWith(s[i..], sub)
  }

  /** A rooted path (leading separator) or one with a drive (`D:...`). */
  predicate IsAbsolute(p: string) {
    (|p| > 0 && IsSep(p[0])) || (|p| >= 2 && p[1] == ':')
  }

  /**
   * `os.path.join(a, b)`: an absolute `b` replaces `a`; otherwise `b` is
   * appended to `a`, with one separator between them unless `a` is empty or
   * already ends in one.
   */
  function Join(a: string, b: string): string {
    if IsAbsolute(b) || a == [] then b
    else if IsSep(a[|a| - 1]) then a + b
    else a + [SEP] + b
  }

  /**
   * What `join` promises: an absolute `b` or an empty `a` gives `b`;
   * otherwise the result starts with `a`, ends with `b`, and between them
   * holds exactly one separator, the one `a` already ended in or an
   * inserted one.
   */
  lemma JoinShape(a: string, b: string)
    ensures var r := Join(a, b);
      && (IsAbsolute(b) || a == [] ==> r == b)
      && (!IsAbsolute(b) && a != [] ==>
            |a| + |b| <= |r| <= |a| + |b| + 1 && StartsWith(r, a) && r[|r| - |b|..] == b)
      && (!IsAbsolute(b) && a != [] && |r| == |a| + |b| + 1 ==> IsSep(r[|a|]) && !IsSep(a[|a| - 1]))
      && (!IsAbsolute(b) && a != [] && |r| == |a| + |b| ==> IsSep(a[|a| - 1]))
  {
    var r := Join(a, b);
    if !IsAbsolute(b) && a != [] {
      assert r[..|a|] == a;
      assert r[|r| - |b|..] == b;
    }
  }

  /** `os.path.join(a, parts[0], parts[1], ...)`, joining left to right. */
  function JoinAll(a: string, parts: seq<string>): string
    decreases |parts|
  {
    if parts == [] then a else JoinAll(Join(a, parts[0]), parts[1..])
  }

  /**
   * `os.path.basename(p)`: the last component, i.e. the longest suffix of
   * `p` holding no separator.
   */
  function Basename(p: string): string
    decreases |p|
  {
    if p == [] || IsSep(p[|p| - 1]) then [] else Basename(p[..|p| - 1]) + [p[|p| - 1]]
  }

  /**
   * The base name is the longest suffix without a separator: it is a suffix,
   * it holds no separator, and the character before it, if any, is one.
   */
  lemma {:induction false} BasenameIsLastComponent(p: string)
    ensures var r := Basename(p);
      && |r| <= |p| && r == p[|p| - |r|..]
      && (forall i :: 0 <= i < |r| ==> !IsSep(r[i]))
      && (|r| < |p| ==> IsSep(p[|p| - |r| - 1]))
    decreases |p|
  {
    if p != [] && !IsSep(p[|p| - 1]) {
      var q := p[..|p| - 1];
      BasenameIsLastComponent(q);
      var r := Basename(p);
      var rq := Basename(q);
      assert r == rq + [p[|p| - 1]];
      assert rq == q[|q| - |rq|..];
      assert p[|p| - |r|..] == q[|q| - |rq|..] + [p[|p| - 1]];
    }
  }

  /** `p` holds at least one separator. */
  predicate HasSep(p: string) {
    exists i :: 0 <= i < |p| && IsSep(p[i])
  }

  /** A path without separators is its own base name. */
  lemma {:induction false} BasenameNoSep(p: string)
    requires !HasSep(p)
    ensures Basename(p) == p
    decreases |p|
  {
    if p != [] {
      var q := p[..|p| - 1];
      assert !IsSep(p[|p| - 1]);
      assert !HasSep(q) by {
        forall i | 0 <= i < |q| ensures !IsSep(q[i]) {
          assert q[i] == p[i];
        }
      }
      BasenameNoSep(q);
      assert q + [p[|p| - 1]] == p;
    }
  }

  /** A character in front of a path that has a separator does not change its base name. */
  lemma {:induction false} BasenameDropFront(c: char, q: string)
    requires HasSep(q)
    ensures Basename([c] + q) == Basename(q)
    decreases |q|
  {
    var p := [c] + q;
    var n := |q|;
    assert p[|p| - 1] == q[n - 1];
    if !IsSep(q[n - 1]) {
      var q' := q[..n - 1];
      assert HasSep(q') by {
        var i :| 0 <= i < |q| && IsSep(q[i]);
        assert i < n - 1 && q'[i] == q[i];
      }
      BasenameDropFront(c, q');
      assert p[..|p| - 1] == [c] + q';
    }
  }

  /**
   * Dropping the first and the last character of `p` leaves a path with a
   * separator, and the last character is not one: the base name of `p` is
   * that of the inner path followed by the last character.
   */
  lemma BasenameWrapped(p: string)
    requires |p| >= 2 && HasSep(p[1..|p| - 1]) && !IsSep(p[|p| - 1])
    ensures Basename(p) == Basename(p[1..|p| - 1]) + [p[|p| - 1]]
  {
    var q := p[1..|p| - 1];
    assert p[..|p| - 1] == [p[0]] + q;
    BasenameDropFront(p[0], q);
  }

  /**
   * `p` names a path strictly inside the directory `a`: it begins with `a`,
   * a separator divides `a` from the rest (the one `a` ends in, or the next
   * character of `p`), and the rest holds at least one character that is not
   * a separator, so at least one more component follows. An empty `a` is the
   * current directory, which holds the non-empty relative paths.
   */
  predicate Under(p: string, a: string) {
    && StartsWith(p, a) && |p| > |a|
    && (a == [] || IsSep(a[|a| - 1]) || IsSep(p[|a|]))
    && (exists i :: |a| <= i < |p| && !IsSep(p[i]))
    && (a == [] ==> !IsAbsolute(p))
  }

  /** A path inside a directory that lies inside `a` lies inside `a`. */
  lemma UnderTrans(r: string, b: string, a: string)
    requires Under(r, b) && Under(b, a)
    ensures Under(r, a)
  {
    assert r[..|b|][..|a|] == r[..|a|];
    if a != [] && !IsSep(a[|a| - 1]) {
      assert r[|a|] == r[..|b|][|a|];
    }
    var i :| |b| <= i < |r| && !IsSep(r[i]);
    assert |a| <= i;
    if a == [] {
      assert r[0] == b[0];
      if |b| >= 2 {
        assert r[1] == b[1];
      }
    }
  }

  /** Joining a non-empty relative component onto `a` names a path inside `a`. */
  lemma JoinUnder(a: string, b: string)
    requires b != [] && !IsAbsolute(b)
    ensures Under(Join(a, b), a)
  {
    JoinShape(a, b);
    var r := Join(a, b);
    var i := |r| - |b|;
    assert r[i] == r[i..][0] == b[0];
    assert !IsSep(r[i]);
  }

  /** Joining non-empty relative components onto `a` names a path inside `a`. */
  lemma {:induction false} JoinAllUnder(a: string, parts: seq<string>)
    requires |parts| > 0
    requires forall k :: 0 <= k < |parts| ==> parts[k] != [] && !IsAbsolute(parts[k])
    ensures Under(JoinAll(a, parts), a)
    decreases |parts|
  {
    var b := Join(a, parts[0]);
    JoinUnder(a, parts[0]);
    if |parts| > 1 {
      JoinAllUnder(b, parts[1..]);
      UnderTrans(JoinAll(a, parts), b, a);
    }
  }

  /** Joining a relative component keeps an absolute base absolute. */
  lemma JoinKeepsAbsolute(a: string, b: string)
    requires IsAbsolute(a) && !IsAbsolute(b)
    ensures IsAbsolute(Join(a, b))
  {
    JoinShape(a, b);
    var r := Join(a, b);
    assert r[..|a|] == a;
    if |a| >= 2 {
      assert r[1] == a[1];
    }
  }

  /** Joining a relative component to a non-empty relative base stays relative. */
  lemma JoinKeepsRelative(a: string, b: string)
    requires a != [] && !IsAbsolute(a) && !IsAbsolute(b)
    ensures !IsAbsolute(Join(a, b))
  {
    JoinShape(a, b);
    var r := Join(a, b);
    assert r[..|a|] == a;
    assert r[0] == a[0];
    if |a| >= 2 {
      assert r[1] == a[1];
    }
  }

  /** Joining relative components onto `a` yields a path beginning with `a`. */
  lemma {:induction false} JoinAllExtends(a: string, parts: seq<string>)
    requires forall k :: 0 <= k < |parts| ==> !IsAbsolute(parts[k])
    ensures StartsWith(JoinAll(a, parts), a)
    decreases |parts|
  {
    if parts != [] {
      var b := Join(a, parts[0]);
      JoinShape(a, parts[0]);
      JoinAllExtends(b, parts[1..]);
      assert StartsWith(b, a);
      var r := JoinAll(a, parts);
      assert r[..|b|][..|a|] == r[..|a|];
    }
  }

  /**
   * Joining relative components keeps the base's kind: absolute stays
   * absolute, and a non-empty relative base stays relative.
   */
  lemma {:induction false} JoinAllKeepsKind(a: string, parts: seq<string>)
    requires forall k :: 0 <= k < |parts| ==> !IsAbsolute(parts[k])
    ensures IsAbsolute(a) ==> IsAbsolute(JoinAll(a, parts))
    ensures a != [] && !IsAbsolute(a) ==> JoinAll(a, parts) != [] && !IsAbsolute(JoinAll(a, parts))
    decreases |parts|
  {
    if parts != [] {
      if IsAbsolute(a) {
        JoinKeepsAbsolute(a, parts[0]);
      } else if a != [] {
        JoinKeepsRelative(a, parts[0]);
      }
      JoinAllKeepsKind(Join(a, parts[0]), parts[1..]);
    }
  }
}
