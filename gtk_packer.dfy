/**
 * GtkPacker.py: the packer as an object. Besides the fields the source gives
 * it, the object carries the part of the world its methods act on: `trace`,
 * the `cp`/`makedirs` operations issued so far, and `dirs`, the directories
 * that exist on disk.
 */
module GtkPacker {
  import opened Paths
  import opened Trace
  import opened Seqs
  import opened Classify
  import opened Selection
  import opened Resources
  import opened Planner

  class GtkPacker {
    /** Names of the dependencies copied so far. */
    var dependencies: set<string>
    const mingwArch: string
    /** `join(msys2_path, mingw_arch)`: the MSYS2 prefix the resources come from. */
    const mingwPath: string
    /** The binary to pack, with its quotes removed. */
    const exeFilePath: string
    const outdir: string

    /** The operations issued so far. */
    var trace: seq<Op>
    /** The directories that exist on disk. */
    var dirs: set<string>

    constructor (mingwArch: string, msys2Path: string, exeFilePath: string, outdir: string, dirs: set<string>)
      requires |exeFilePath| > 0
      ensures this.dependencies == {}
      ensures this.mingwArch == mingwArch
      ensures this.mingwPath == Join(msys2Path, mingwArch)
      ensures this.exeFilePath == CleanPath(exeFilePath)
      ensures this.outdir == outdir
      ensures this.trace == [] && this.dirs == dirs
    {
      this.dependencies := {};
      this.mingwArch := mingwArch;
      this.mingwPath := Join(msys2Path, mingwArch);
      this.exeFilePath := CleanPath(exeFilePath);
      this.outdir := outdir;
      this.trace := [];
      this.dirs := dirs;
    }

    /**
     * `if not os.path.exists(p): os.makedirs(p)`, the step both copy methods
     * take before copying into a directory.
     */
    method MakeDirs(p: string)
      modifies this`trace, this`dirs
      ensures var e := EnsureDir(old(dirs), p);
        trace == old(trace) + e.ops && dirs == e.dirs
    {
      if p !in dirs {
        trace := trace + [MkDir(p)];
        dirs := dirs + Created(p);
      }
    }

    /**
     * `copy_bin_file`, given the lines `ntldd -R` printed, split into fields:
     * ensures `bin` exists, copies each MSYS2 dependency not yet copied, and
     * then the binary itself.
     */
    method CopyBinFile(info: seq<seq<string>>)
      requires WellFormed(info)
      modifies this`dependencies, this`trace, this`dirs
      ensures dependencies == Picked(mingwArch, info, old(dependencies))
      ensures var b := BinSteps(mingwArch, info, outdir, old(dependencies), old(dirs),
                                exeFilePath, Basename(exeFilePath));
        trace == old(trace) + b.ops && dirs == b.dirs
    {
      ghost var seen := dependencies;
      var binPath := Join(outdir, "bin");
      ghost var e := EnsureDir(dirs, binPath);
      MakeDirs(binPath);
      ghost var start, binDirs := trace, dirs;
      var i := 0;
      while i < |info|
        invariant 0 <= i <= |info|
        invariant dirs == binDirs
        invariant dependencies == Picked(mingwArch, info[..i], seen)
        invariant trace == start + CopyPlan(mingwArch, info[..i], binPath, seen)
      {
        var item := info[i];
        PlanStep(mingwArch, info, binPath, seen, i);
        if IsMsys2Dep(mingwArch, item[2]) {
          if item[0] !in dependencies {
            Assoc3(start, CopyPlan(mingwArch, info[..i], binPath, seen), [CopyOf(binPath, item)]);
            trace := trace + [Copy(item[2], Join(binPath, item[0]))];
            dependencies := dependencies + {item[0]};
          }
        }
        i := i + 1;
      }
      assert info[..|info|] == info;
      assert seen == old(dependencies);
      assert dependencies == Picked(mingwArch, info, old(dependencies));
      ghost var plan := CopyPlan(mingwArch, info, binPath, seen);
      var exeCopy := Copy(exeFilePath, Join(binPath, Basename(exeFilePath)));
      trace := trace + [exeCopy];
      Assoc4(old(trace), e.ops, plan, [exeCopy]);
    }

    /**
     * `copy_resource_file`: for each entry of the resource table, in order,
     * makes `join(outdir, target)` if it does not exist and copies the
     * source tree to the target.
     */
    method CopyResourceFile()
      modifies this`trace, this`dirs
      ensures var r := ResourceSteps(ResourceTable(mingwPath, outdir), outdir, old(dirs));
        trace == old(trace) + r.ops && dirs == r.dirs
    {
      var table := ResourceTable(mingwPath, outdir);
      var i := 0;
      while i < |table|
        invariant 0 <= i <= |table|
        invariant trace == old(trace) + ResourceSteps(table[..i], outdir, old(dirs)).ops
        invariant dirs == ResourceSteps(table[..i], outdir, old(dirs)).dirs
      {
        var (source, target) := table[i];
        assert table[..i + 1][..i] == table[..i];
        ghost var before, dirs0 := trace, dirs;
        ghost var done := ResourceSteps(table[..i], outdir, old(dirs));
        var dir := Join(outdir, target);
        ghost var e := EnsureDir(dirs, dir);
        MakeDirs(dir);
        trace := trace + [CopyTree(source, target)];
        ghost var last := EntrySteps(table[i], outdir, dirs0);
        Assoc3(before, e.ops, [CopyTree(source, target)]);
        Assoc3(old(trace), done.ops, last.ops);
        i := i + 1;
      }
      assert table[..|table|] == table;
    }

    /** `run`: the bin phase, then the resource step if GTK 3's core library was copied. */
    method Run(info: seq<seq<string>>)
      requires WellFormed(info)
      modifies this`dependencies, this`trace, this`dirs
      ensures dependencies == Picked(mingwArch, info, old(dependencies))
      ensures var r := PackSteps(mingwArch, mingwPath, info, outdir, old(dependencies), old(dirs),
                                 exeFilePath, Basename(exeFilePath));
        trace == old(trace) + r.ops && dirs == r.dirs
    {
      ghost var b := BinSteps(mingwArch, info, outdir, old(dependencies), old(dirs),
                              exeFilePath, Basename(exeFilePath));
      CopyBinFile(info);
      if GTK_CORE in dependencies {
        ghost var r := ResourceSteps(ResourceTable(mingwPath, outdir), outdir, dirs);
        CopyResourceFile();
        Assoc3(old(trace), b.ops, r.ops);
      }
    }
  }
}
