/**
 * The whole packing run as both source files perform it: make sure
 * `outdir/bin` exists, copy each MSYS2 dependency once, copy the target
 * binary, and run the resource step when the GTK 3 core library was among
 * the copied dependencies. The two files differ only in how they name the
 * binary's copy, so that name is a parameter here.
 */
module Planner {
  import opened Paths
  import opened Trace
  import opened Selection
  import opened Resources

  /** The library whose presence triggers the resource step. */
  const GTK_CORE: string := "libgtk-3-0.dll"

  /** `os.path.join(outdir, "bin")`, the directory the binaries are copied into. */
  function BinDir(outdir: string): string {
    Join(outdir, "bin")
  }

  /**
   * The bin phase: ensure `bin` exists, copy the chosen dependencies,
   * then copy the binary `exeSrc` to `bin/<exeName>`.
   */
  function BinSteps(arch: string, info: seq<seq<string>>, outdir: string, seen: set<string>,
                    dirs: set<string>, exeSrc: string, exeName: string): Plan
    requires WellFormed(info)
  {
    var bin := BinDir(outdir);
    var e := EnsureDir(dirs, bin);
    Plan(e.ops + CopyPlan(arch, info, bin, seen) + [Copy(exeSrc, Join(bin, exeName))], e.dirs)
  }

  /** The bin phase followed, when the GTK 3 core library was picked, by the resource step. */
  function PackSteps(arch: string, mingwPath: string, info: seq<seq<string>>, outdir: string,
                     seen: set<string>, dirs: set<string>, exeSrc: string, exeName: string): Plan
    requires WellFormed(info)
  {
    var b := BinSteps(arch, info, outdir, seen, dirs, exeSrc, exeName);
    if GTK_CORE in Picked(arch, info, seen) then
      var r := ResourceSteps(ResourceTable(mingwPath, outdir), outdir, b.dirs);
      Plan(b.ops + r.ops, r.dirs)
    else b
  }

  /** The dependency copies are plain copies. */
  lemma CopyPlanOnlyCopies(arch: string, info: seq<seq<string>>, bin: string, seen: set<string>)
    requires WellFormed(info)
    ensures forall p :: 0 <= p < |CopyPlan(arch, info, bin, seen)| ==> CopyPlan(arch, info, bin, seen)[p].Copy?
  {
    CopyPlanChosen(arch, info, bin, seen);
  }

  /**
   * In the bin phase the only `MkDir` is the first operation, issued for
   * `bin` exactly when it is absent; the last operation copies the binary;
   * and nothing is copied recursively.
   */
  lemma BinStepsOrder(arch: string, info: seq<seq<string>>, outdir: string, seen: set<string>,
                      dirs: set<string>, exeSrc: string, exeName: string)
    requires WellFormed(info)
    ensures var b := BinSteps(arch, info, outdir, seen, dirs, exeSrc, exeName);
      && |b.ops| > 0
      && b.ops[|b.ops| - 1] == Copy(exeSrc, Join(BinDir(outdir), exeName))
      && (BinDir(outdir) !in dirs ==> b.ops[0] == MkDir(BinDir(outdir)))
      && (forall p :: 0 <= p < |b.ops| && b.ops[p].MkDir? ==>
            p == 0 && b.ops[p].path == BinDir(outdir) && BinDir(outdir) !in dirs)
      && (forall p :: 0 <= p < |b.ops| ==> !b.ops[p].CopyTree?)
  {
    var bin := BinDir(outdir);
    var e := EnsureDir(dirs, bin);
    var rest := CopyPlan(arch, info, bin, seen) + [Copy(exeSrc, Join(bin, exeName))];
    var ops := e.ops + rest;
    assert ops == BinSteps(arch, info, outdir, seen, dirs, exeSrc, exeName).ops;
    CopyPlanOnlyCopies(arch, info, bin, seen);
    assert forall q :: 0 <= q < |rest| ==> rest[q].Copy?;
    forall p | 0 <= p < |ops|
      ensures ops[p].MkDir? ==> p == 0 && ops[p].path == bin && bin !in dirs
      ensures !ops[p].CopyTree?
    {
      if p < |e.ops| {
        assert ops[p] == e.ops[p];
      } else {
        assert ops[p] == rest[p - |e.ops|];
      }
    }
  }

  /**
   * Every copy of the bin phase finds `bin` in place, and the final
   * directory set is what the operations leave behind.
   */
  lemma BinStepsDirs(arch: string, info: seq<seq<string>>, outdir: string, seen: set<string>,
                     dirs: set<string>, exeSrc: string, exeName: string)
    requires WellFormed(info)
    ensures var b := BinSteps(arch, info, outdir, seen, dirs, exeSrc, exeName);
      && (forall p :: 0 <= p < |b.ops| && b.ops[p].Copy? ==> BinDir(outdir) in DirsAfter(dirs, b.ops[..p]))
      && b.dirs == DirsAfter(dirs, b.ops)
  {
    var bin := BinDir(outdir);
    var e := EnsureDir(dirs, bin);
    EnsureDirDirs(dirs, bin);
    var rest := CopyPlan(arch, info, bin, seen) + [Copy(exeSrc, Join(bin, exeName))];
    var ops := e.ops + rest;
    assert ops == BinSteps(arch, info, outdir, seen, dirs, exeSrc, exeName).ops;
    CopyPlanOnlyCopies(arch, info, bin, seen);
    assert forall q :: 0 <= q < |rest| ==> !rest[q].MkDir?;
    forall p | |e.ops| <= p < |ops|
      ensures bin in DirsAfter(dirs, ops[..p])
    {
      assert ops[..p] == e.ops + rest[..p - |e.ops|];
      DirsAfterAppend(dirs, e.ops, rest[..p - |e.ops|]);
      DirsAfterNoMkDir(e.dirs, rest[..p - |e.ops|]);
    }
    forall p | 0 <= p < |e.ops|
      ensures !ops[p].Copy?
    {
      assert ops[p] == e.ops[p];
    }
    DirsAfterAppend(dirs, e.ops, rest);
    DirsAfterNoMkDir(e.dirs, rest);
  }

  /** `op` is the copy of a record that is the first accepted one with its name. */
  ghost predicate CopiesFirst(arch: string, info: seq<seq<string>>, seen: set<string>, bin: string, op: Op)
    requires WellFormed(info)
  {
    exists j :: IsFirst(arch, info, seen, j) && op == CopyOf(bin, info[j])
  }

  /**
   * In the bin phase, every copy but the last is the copy of a record that
   * is the first accepted one with its name.
   */
  lemma BinStepsCopiesFirst(arch: string, info: seq<seq<string>>, outdir: string, seen: set<string>,
                            dirs: set<string>, exeSrc: string, exeName: string)
    requires WellFormed(info)
    ensures var b := BinSteps(arch, info, outdir, seen, dirs, exeSrc, exeName);
      forall p :: 0 <= p < |b.ops| - 1 && b.ops[p].Copy? ==> CopiesFirst(arch, info, seen, BinDir(outdir), b.ops[p])
  {
    var bin := BinDir(outdir);
    var e := EnsureDir(dirs, bin);
    var plan := CopyPlan(arch, info, bin, seen);
    var ops := e.ops + plan + [Copy(exeSrc, Join(bin, exeName))];
    assert ops == BinSteps(arch, info, outdir, seen, dirs, exeSrc, exeName).ops;
    FirstOccurrenceWins(arch, info, bin, seen);
    var c := Chosen(arch, info, seen);
    forall p | |e.ops| <= p < |ops| - 1
      ensures CopiesFirst(arch, info, seen, bin, ops[p])
    {
      var k := p - |e.ops|;
      assert ops[p] == plan[k];
      assert IsFirst(arch, info, seen, c[k]) && plan[k] == CopyOf(bin, info[c[k]]);
    }
    forall p | 0 <= p < |e.ops|
      ensures !ops[p].Copy?
    {
      assert ops[p] == e.ops[p];
    }
  }

  /** Every record that is the first accepted one with its name is copied in the bin phase. */
  lemma BinStepsCopiesAllFirst(arch: string, info: seq<seq<string>>, outdir: string, seen: set<string>,
                               dirs: set<string>, exeSrc: string, exeName: string)
    requires WellFormed(info)
    ensures var b := BinSteps(arch, info, outdir, seen, dirs, exeSrc, exeName);
      forall j :: IsFirst(arch, info, seen, j) ==> CopyOf(BinDir(outdir), info[j]) in b.ops[..|b.ops| - 1]
  {
    var bin := BinDir(outdir);
    var e := EnsureDir(dirs, bin);
    var plan := CopyPlan(arch, info, bin, seen);
    var ops := e.ops + plan + [Copy(exeSrc, Join(bin, exeName))];
    assert ops == BinSteps(arch, info, outdir, seen, dirs, exeSrc, exeName).ops;
    assert ops[..|ops| - 1] == e.ops + plan;
    FirstOccurrenceWins(arch, info, bin, seen);
    forall j | IsFirst(arch, info, seen, j)
      ensures CopyOf(bin, info[j]) in ops[..|ops| - 1]
    {
      assert CopyOf(bin, info[j]) in plan;
    }
  }

  /**
   * The resource step runs exactly when the GTK 3 core library was picked:
   * the run's recursive copies are then the five table entries in table
   * order, and otherwise there are none.
   */
  lemma PackResourcesIff(arch: string, mingwPath: string, info: seq<seq<string>>, outdir: string,
                         seen: set<string>, dirs: set<string>, exeSrc: string, exeName: string)
    requires WellFormed(info)
    ensures var table := ResourceTable(mingwPath, outdir);
      var c := TreeCopies(PackSteps(arch, mingwPath, info, outdir, seen, dirs, exeSrc, exeName).ops);
      && (GTK_CORE in Picked(arch, info, seen) ==>
            |c| == 5 && forall k :: 0 <= k < 5 ==> c[k] == CopyTree(table[k].0, table[k].1))
      && (GTK_CORE !in Picked(arch, info, seen) ==> c == [])
  {
    var b := BinSteps(arch, info, outdir, seen, dirs, exeSrc, exeName);
    BinStepsOrder(arch, info, outdir, seen, dirs, exeSrc, exeName);
    TreeCopiesEmpty(b.ops);
    if GTK_CORE in Picked(arch, info, seen) {
      var table := ResourceTable(mingwPath, outdir);
      var r := ResourceSteps(table, outdir, b.dirs);
      TreeCopiesAppend(b.ops, r.ops);
      ResourceStepsCopies(table, outdir, b.dirs);
    }
  }

  /**
   * When no record is an MSYS2 dependency (and the GTK 3 core library was
   * not already picked), the run only makes sure of `bin` and copies the
   * binary into it.
   */
  lemma NoMsys2DepsOnlyBinary(arch: string, mingwPath: string, info: seq<seq<string>>, outdir: string,
                              seen: set<string>, dirs: set<string>, exeSrc: string, exeName: string)
    requires WellFormed(info)
    requires forall j :: 0 <= j < |info| ==> !Accepts(arch, info[j])
    requires GTK_CORE !in seen
    ensures PackSteps(arch, mingwPath, info, outdir, seen, dirs, exeSrc, exeName).ops
      == EnsureDir(dirs, BinDir(outdir)).ops + [Copy(exeSrc, Join(BinDir(outdir), exeName))]
  {
    var bin := BinDir(outdir);
    PickedIff(arch, info, seen, GTK_CORE);
    CopyPlanChosen(arch, info, bin, seen);
    if |Chosen(arch, info, seen)| > 0 {
      ChosenIff(arch, info, seen, Chosen(arch, info, seen)[0]);
    }
    assert CopyPlan(arch, info, bin, seen) == [];
  }

  /** The final directory set of the run is what its operations leave behind. */
  lemma PackStepsDirs(arch: string, mingwPath: string, info: seq<seq<string>>, outdir: string,
                      seen: set<string>, dirs: set<string>, exeSrc: string, exeName: string)
    requires WellFormed(info)
    ensures var r := PackSteps(arch, mingwPath, info, outdir, seen, dirs, exeSrc, exeName);
      r.dirs == DirsAfter(dirs, r.ops)
  {
    var b := BinSteps(arch, info, outdir, seen, dirs, exeSrc, exeName);
    BinStepsDirs(arch, info, outdir, seen, dirs, exeSrc, exeName);
    if GTK_CORE in Picked(arch, info, seen) {
      var table := ResourceTable(mingwPath, outdir);
      var r := ResourceSteps(table, outdir, b.dirs);
      ResourceStepsDirs(table, outdir, b.dirs);
      DirsAfterAppend(dirs, b.ops, r.ops);
    }
  }
}
