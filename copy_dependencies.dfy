/**
 * CopyDependencies.py: the first, script form of the packer. The work is the
 * same as `GtkPacker.run` with the constants `ucrt64` and `D:\msys64\`; the
 * one difference is that the binary's copy is named after the base name of
 * the path as typed, quotes included, while the copy's source is the
 * unquoted path.
 */
module CopyDependencies {
  import opened Paths
  import opened Trace
  import opened Seqs
  import opened Classify
  import opened Selection
  import opened Resources
  import opened Planner

  const MINGW_ARCH: string := "ucrt64"
  const MSYS2_PATH: string := "D:\\msys64\\"

  /** `os.path.join(MSYS2_PATH, MINGW_ARCH)`, the prefix the resource sources live under. */
  function MingwPath(): string {
    Join(MSYS2_PATH, MINGW_ARCH)
  }

  /**
   * `if not os.path.exists(p): os.makedirs(p)` with the directories `dirs`
   * in place: the operations issued and the directories afterwards.
   */
  method MakeDirs(dirs: set<string>, p: string) returns (made: seq<Op>, after: set<string>)
    ensures made == EnsureDir(dirs, p).ops && after == EnsureDir(dirs, p).dirs
  {
    made, after := [], dirs;
    if p !in dirs {
      made := [MkDir(p)];
      after := dirs + Created(p);
    }
  }

  /**
   * The name the script gives the binary's copy, `basename(path)` of the
   * path as typed, keeps the closing quote of a quoted path: when the
   * unquoted path has a directory part it is the unquoted base name followed
   * by that quote, and otherwise it is the whole typed path, both quotes
   * included. Only for an unquoted path is it the base name of the copy's
   * source.
   */
  lemma TypedNameKeepsQuotes(path: string)
    requires |path| > 0
    ensures IsQuoted(path) && HasSep(CleanPath(path)) ==>
      Basename(path) == Basename(CleanPath(path)) + [path[|path| - 1]]
    ensures IsQuoted(path) && !HasSep(CleanPath(path)) ==> Basename(path) == path
    ensures !IsQuoted(path) ==> Basename(path) == Basename(CleanPath(path))
  {
    if IsQuoted(path) {
      if HasSep(CleanPath(path)) {
        QuotedNameWithDir(path);
      } else {
        QuotedNameWithoutDir(path);
      }
    }
  }

  /** A quoted path with a directory part: the typed base name is the unquoted one plus the closing quote. */
  lemma QuotedNameWithDir(path: string)
    requires |path| > 0 && IsQuoted(path) && HasSep(CleanPath(path))
    ensures Basename(path) == Basename(CleanPath(path)) + [path[|path| - 1]]
  {
    var n := |path|;
    var inner := CleanPath(path);
    assert |inner| > 0;
    assert n >= 2 && inner == path[1..n - 1];
    BasenameWrapped(path);
  }

  /** A quoted path without a directory part is its own base name, both quotes included. */
  lemma QuotedNameWithoutDir(path: string)
    requires |path| > 0 && IsQuoted(path) && !HasSep(CleanPath(path))
    ensures Basename(path) == path
  {
    var n := |path|;
    var inner := CleanPath(path);
    assert !HasSep(path) by {
      forall i | 0 <= i < n ensures !IsSep(path[i]) {
        if 0 < i < n - 1 {
          assert path[i] == inner[i - 1];
        }
      }
    }
    BasenameNoSep(path);
  }

  /**
   * Lines 27-37 of the script, for the binary `path` as typed, the output
   * directory `outdir`, the records `ntldd -R` printed, split into fields,
   * and the directories `dirs0` that exist beforehand: make sure of `bin`,
   * copy each MSYS2 dependency once, then copy the binary. It returns the
   * set of copied dependency names, the operations issued and the
   * directories that exist afterwards.
   */
  method CopyBinaries(path: string, outdir: string, info: seq<seq<string>>, dirs0: set<string>)
    returns (dependencies: set<string>, trace: seq<Op>, dirs: set<string>)
    requires |path| > 0 && WellFormed(info)
    ensures dependencies == Picked(MINGW_ARCH, info, {})
    ensures var b := BinSteps(MINGW_ARCH, info, outdir, {}, dirs0, CleanPath(path), Basename(path));
      trace == b.ops && dirs == b.dirs
  {
    dependencies := {};
    var binPath := Join(outdir, "bin");
    ghost var e := EnsureDir(dirs0, binPath);
    trace, dirs := MakeDirs(dirs0, binPath);
    assert e.ops + [] == e.ops;
    var i := 0;
    while i < |info|
      invariant 0 <= i <= |info|
      invariant dirs == e.dirs
      invariant dependencies == Picked(MINGW_ARCH, info[..i], {})
      invariant trace == e.ops + CopyPlan(MINGW_ARCH, info[..i], binPath, {})
    {
      var item := info[i];
      PlanStep(MINGW_ARCH, info, binPath, {}, i);
      if IsMsys2Dep(MINGW_ARCH, item[2]) {
        if item[0] !in dependencies {
          Assoc3(e.ops, CopyPlan(MINGW_ARCH, info[..i], binPath, {}), [CopyOf(binPath, item)]);
          trace := trace + [Copy(item[2], Join(Join(outdir, "bin"), item[0]))];
          dependencies := dependencies + {item[0]};
        }
      }
      i := i + 1;
    }
    assert info[..|info|] == info;
    trace := trace + [Copy(CleanPath(path), Join(Join(outdir, "bin"), Basename(path)))];
  }

  /**
   * Lines 40-50 of the script, after the operations `trace0` with the
   * directories `dirs0` in place: for each table entry, make sure of
   * `join(outdir, target)` and copy the source tree to the target.
   */
  method CopyShareFiles(mingwPath: string, outdir: string, trace0: seq<Op>, dirs0: set<string>)
    returns (trace: seq<Op>, dirs: set<string>)
    ensures var r := ResourceSteps(ResourceTable(mingwPath, outdir), outdir, dirs0);
      trace == trace0 + r.ops && dirs == r.dirs
  {
    trace, dirs := trace0, dirs0;
    var table := ResourceTable(mingwPath, outdir);
    var k := 0;
    while k < |table|
      invariant 0 <= k <= |table|
      invariant trace == trace0 + ResourceSteps(table[..k], outdir, dirs0).ops
      invariant dirs == ResourceSteps(table[..k], outdir, dirs0).dirs
    {
      var (source, target) := table[k];
      assert table[..k + 1][..k] == table[..k];
      ghost var before, dirsBefore := trace, dirs;
      ghost var done := ResourceSteps(table[..k], outdir, dirs0);
      var dir := Join(outdir, target);
      ghost var d := EnsureDir(dirsBefore, dir);
      var made;
      made, dirs := MakeDirs(dirs, dir);
      trace := trace + made;
      trace := trace + [CopyTree(source, target)];
      Assoc3(before, d.ops, [CopyTree(source, target)]);
      Assoc3(trace0, done.ops, EntrySteps(table[k], outdir, dirsBefore).ops);
      k := k + 1;
    }
    assert table[..|table|] == table;
  }

  /** The whole script from line 27 on: the binaries, then the share files if GTK 3 was copied. */
  method Pack(path: string, outdir: string, info: seq<seq<string>>, dirs0: set<string>)
    returns (dependencies: set<string>, trace: seq<Op>, dirs: set<string>)
    requires |path| > 0 && WellFormed(info)
    ensures dependencies == Picked(MINGW_ARCH, info, {})
    ensures var r := PackSteps(MINGW_ARCH, MingwPath(), info, outdir, {}, dirs0, CleanPath(path), Basename(path));
      trace == r.ops && dirs == r.dirs
  {
    dependencies, trace, dirs := CopyBinaries(path, outdir, info, dirs0);
    if GTK_CORE in dependencies {
      trace, dirs := CopyShareFiles(MingwPath(), outdir, trace, dirs);
    }
  }
}
