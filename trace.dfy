/**
 * The effects the packer has on the world, as a trace of operations, and the
 * set of directories known to exist on disk. `os.makedirs` becomes `MkDir`,
 * `cp` becomes `Copy` and `cp -r` becomes `CopyTree`.
 */
module Trace {
  import opened Paths

  datatype Op =
    | MkDir(path: string)
    | Copy(src: string, dst: string)
    | CopyTree(src: string, dst: string)

  /** Operations to issue, and the directories that exist once they are done. */
  datatype Plan = Plan(ops: seq<Op>, dirs: set<string>)

  /**
   * The directories `os.makedirs(p)` leaves in place: `p` itself and every
   * ancestor, i.e. every non-empty prefix of `p` that ends just before a
   * separator.
   */
  function Created(p: string): (r: set<string>)
    ensures p in r
  {
    {p} + Ancestors(p, |p|)
  }

  /** The prefixes `p[..i]` with `0 < i < n` that end just before a separator. */
  function Ancestors(p: string, n: nat): set<string>
    requires n <= |p|
    decreases n
  {
    if n <= 1 then {} else Ancestors(p, n - 1) + (if IsSep(p[n - 1]) then {p[..n - 1]} else {})
  }

  lemma {:induction false} AncestorsIff(p: string, n: nat, d: string)
    requires n <= |p|
    ensures d in Ancestors(p, n) <==> 0 < |d| < n && StartsWith(p, d) && IsSep(p[|d|])
    decreases n
  {
    if n > 1 {
      AncestorsIff(p, n - 1, d);
      if |d| == n - 1 && StartsWith(p, d) {
        assert p[..n - 1] == d;
      }
    }
  }

  /** `makedirs` creates `p`, each of its ancestors, and nothing else. */
  lemma CreatedIff(p: string, d: string)
    ensures d in Created(p) <==>
      d == p || (0 < |d| < |p| && StartsWith(p, d) && IsSep(p[|d|]))
  {
    AncestorsIff(p, |p|, d);
  }

  /** Only `MkDir` changes which directories exist. */
  function Apply(dirs: set<string>, op: Op): set<string> {
    if op.MkDir? then dirs + Created(op.path) else dirs
  }

  /** The directories that exist after `ops` run, starting from `dirs`. */
  function DirsAfter(dirs: set<string>, ops: seq<Op>): set<string>
    decreases |ops|
  {
    if ops == [] then dirs else DirsAfter(Apply(dirs, ops[0]), ops[1..])
  }

  /**
   * `if not os.path.exists(p): os.makedirs(p)`: a `MkDir` is issued exactly
   * when `p` is absent, and `p` exists afterwards.
   */
  function EnsureDir(dirs: set<string>, p: string): (r: Plan)
    ensures p in r.dirs && dirs <= r.dirs
    ensures p in dirs ==> r == Plan([], dirs)
    ensures p !in dirs ==> r.ops == [MkDir(p)]
  {
    if p in dirs then Plan([], dirs) else Plan([MkDir(p)], dirs + Created(p))
  }

  /** The directories `EnsureDir` reports are the ones its operations leave behind. */
  lemma EnsureDirDirs(dirs: set<string>, p: string)
    ensures EnsureDir(dirs, p).dirs == DirsAfter(dirs, EnsureDir(dirs, p).ops)
  {
    if p !in dirs {
      assert DirsAfter(dirs, [MkDir(p)]) == DirsAfter(dirs + Created(p), []);
    }
  }

  /** Running `a` then `b` is running `a + b`. */
  lemma {:induction false} DirsAfterAppend(dirs: set<string>, a: seq<Op>, b: seq<Op>)
    ensures DirsAfter(dirs, a + b) == DirsAfter(DirsAfter(dirs, a), b)
    decreases |a|
  {
    if a != [] {
      assert (a + b)[0] == a[0] && (a + b)[1..] == a[1..] + b;
      DirsAfterAppend(Apply(dirs, a[0]), a[1..], b);
    } else {
      assert a + b == b;
    }
  }

  /** Directories are never removed. */
  lemma {:induction false} DirsAfterGrows(dirs: set<string>, ops: seq<Op>)
    ensures dirs <= DirsAfter(dirs, ops)
    decreases |ops|
  {
    if ops != [] {
      DirsAfterGrows(Apply(dirs, ops[0]), ops[1..]);
    }
  }

  /** Operations without a `MkDir` leave the directories as they were. */
  lemma {:induction false} DirsAfterNoMkDir(dirs: set<string>, ops: seq<Op>)
    requires forall p :: 0 <= p < |ops| ==> !ops[p].MkDir?
    ensures DirsAfter(dirs, ops) == dirs
    decreases |ops|
  {
    if ops != [] {
      assert !ops[0].MkDir?;
      DirsAfterNoMkDir(dirs, ops[1..]);
    }
  }

  /** The recursive copies in a trace, in order. */
  function TreeCopies(ops: seq<Op>): seq<Op>
    decreases |ops|
  {
    if ops == [] then []
    else (if ops[0].CopyTree? then [ops[0]] else []) + TreeCopies(ops[1..])
  }

  lemma {:induction false} TreeCopiesAppend(a: seq<Op>, b: seq<Op>)
    ensures TreeCopies(a + b) == TreeCopies(a) + TreeCopies(b)
    decreases |a|
  {
    if a != [] {
      assert (a + b)[0] == a[0] && (a + b)[1..] == a[1..] + b;
      TreeCopiesAppend(a[1..], b);
    } else {
      assert a + b == b;
    }
  }

  /** A trace has no recursive copy exactly when `TreeCopies` finds none. */
  lemma {:induction false} TreeCopiesEmpty(ops: seq<Op>)
    ensures TreeCopies(ops) == [] <==> forall p :: 0 <= p < |ops| ==> !ops[p].CopyTree?
    decreases |ops|
  {
    if ops != [] {
      TreeCopiesEmpty(ops[1..]);
      assert forall p :: 1 <= p < |ops| ==> ops[p] == ops[1..][p - 1];
    }
  }
}
