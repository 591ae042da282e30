/**
 * The two pure decisions of the packer: stripping quotes from the path the
 * user typed (`clean_path` in GtkPacker.py, `pathed` in CopyDependencies.py)
 * and deciding whether a resolved dependency path belongs to MSYS2
 * (`is_msys2_dep`, and the same four patterns inline in CopyDependencies.py).
 */
module Classify {
  import opened Paths
  import opened Glob

  predicate IsQuote(c: char) {
    c == '\'' || c == '"'
  }

  /** The first and the last character are both quotes (not necessarily the same one). */
  predicate IsQuoted(path: string)
    requires |path| > 0
  {
    IsQuote(path[0]) && IsQuote(path[|path| - 1])
  }

  /**
   * `path[1:-1]` when the path begins and ends with a quote, the path itself
   * otherwise. A path that is a single quote character becomes empty, as
   * Python's slice does.
   */
  function CleanPath(path: string): (r: string)
    requires |path| > 0
    ensures IsQuoted(path) ==>
      |r| == (if |path| >= 2 then |path| - 2 else 0) &&
      forall i :: 0 <= i < |r| ==> r[i] == path[i + 1]
    ensures !IsQuoted(path) ==> r == path
  {
    if IsQuoted(path) then
      if |path| >= 2 then path[1..|path| - 1] else []
    else path
  }

  /** Cleaning undoes quoting with any pair of quote characters. */
  lemma CleanPathUnquotes(open: char, s: string, close: char)
    requires IsQuote(open) && IsQuote(close)
    ensures CleanPath([open] + s + [close]) == s
  {
    var p := [open] + s + [close];
    assert p[0] == open && p[|p| - 1] == close;
    assert p[1..|p| - 1] == s;
  }

  // `is_msys2_dep`: the path matches one of the glob patterns `/usr/` + star,
  // `/<arch>/` + star, star + `\usr\` + star or star + `\<arch>\` + star.
  predicate IsMsys2Dep(arch: string, depPath: string) {
    || Match("/usr/*", depPath)
    || Match("/" + arch + "/*", depPath)
    || Match("*\\usr\\*", depPath)
    || Match("*\\" + arch + "\\*", depPath)
  }

  /**
   * The patterns say: the path starts with `/usr/` or `/<arch>/`, or it
   * contains `\usr\` or `\<arch>\` anywhere.
   */
  lemma IsMsys2DepIff(arch: string, depPath: string)
    requires NoStar(arch)
    ensures IsMsys2Dep(arch, depPath) <==> (
      || StartsWith(depPath, "/usr/")
      || StartsWith(depPath, "/" + arch + "/")
      || Contains(depPath, "\\usr\\")
      || Contains(depPath, "\\" + arch + "\\"))
  {
    assert "/usr/*" == "/usr/" + "*";
    PrefixPattern("/usr/", depPath);
    var archDir := "/" + arch + "/";
    assert NoStar(archDir) by {
      forall i | 0 <= i < |archDir| ensures archDir[i] != '*' {
        if 0 < i < |archDir| - 1 {
          assert archDir[i] == arch[i - 1];
        }
      }
    }
    assert "/" + arch + "/*" == archDir + "*";
    PrefixPattern(archDir, depPath);
    assert "*\\usr\\*" == "*" + "\\usr\\" + "*";
    InfixPattern("\\usr\\", depPath);
    var archSub := "\\" + arch + "\\";
    assert NoStar(archSub) by {
      forall i | 0 <= i < |archSub| ensures archSub[i] != '*' {
        if 0 < i < |archSub| - 1 {
          assert archSub[i] == arch[i - 1];
        }
      }
    }
    assert "*\\" + arch + "\\*" == "*" + archSub + "*";
    InfixPattern(archSub, depPath);
  }
}
