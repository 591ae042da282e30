/**
 * The resource step (`copy_resource_file` in GtkPacker.py, lines 39-50 of
 * CopyDependencies.py): five toolkit directories of the MSYS2 prefix are
 * copied recursively into the output directory, each after making sure its
 * destination directory exists.
 */
module Resources {
  import opened Paths
  import opened Trace

  /** Components joined onto the MSYS2 prefix to name each source directory. */
  const SOURCE_PARTS: seq<seq<string>> := [
    ["share", "themes", "default", "gtk-3.0"],
    ["share", "themes", "emacs", "gtk-3.0"],
    ["share", "glib-2.0", "schemas"],
    ["share", "icons"],
    ["lib", "gdk-pixbuf-2.0"]]

  /** Components joined onto the output directory to name each target directory. */
  const TARGET_PARTS: seq<seq<string>> := [
    ["share", "themes", "default"],
    ["share", "themes", "emacs"],
    ["share", "glib-2.0"],
    ["share"],
    ["lib"]]

  /**
   * The source-to-target table, in the dictionary's insertion order. Its five
   * keys are different paths, so the dictionary keeps all five entries.
   */
  function ResourceTable(mingwPath: string, outdir: string): seq<(string, string)> {
    seq(5, k requires 0 <= k < 5 => (JoinAll(mingwPath, SOURCE_PARTS[k]), JoinAll(outdir, TARGET_PARTS[k])))
  }

  /**
   * One pass of the loop: make `join(outdir, target)` if it does not exist,
   * then copy the source tree to the target.
   */
  function EntrySteps(entry: (string, string), outdir: string, dirs: set<string>): Plan {
    var e := EnsureDir(dirs, Join(outdir, entry.1));
    Plan(e.ops + [CopyTree(entry.0, entry.1)], e.dirs)
  }

  /**
   * The loop over the table, entry by entry. It recurses on the last entry,
   * so that it describes what the loop has done after a prefix of the table.
   */
  function ResourceSteps(table: seq<(string, string)>, outdir: string, dirs: set<string>): Plan
    decreases |table|
  {
    if table == [] then Plan([], dirs)
    else
      var n := |table| - 1;
      var before := ResourceSteps(table[..n], outdir, dirs);
      var last := EntrySteps(table[n], outdir, before.dirs);
      Plan(before.ops + last.ops, last.dirs)
  }

  /**
   * One pass issues a recursive copy of the entry last, preceded by a
   * `MkDir` of `join(outdir, target)` exactly when that directory is absent;
   * the copy finds the directory in place.
   */
  lemma EntryStepsShape(entry: (string, string), outdir: string, dirs: set<string>)
    ensures var h := EntrySteps(entry, outdir, dirs);
      && h.dirs == DirsAfter(dirs, h.ops)
      && |h.ops| == (if Join(outdir, entry.1) in dirs then 1 else 2)
      && h.ops[|h.ops| - 1] == CopyTree(entry.0, entry.1)
      && Join(outdir, entry.1) in DirsAfter(dirs, h.ops[..|h.ops| - 1])
      && (|h.ops| == 2 ==> h.ops[0] == MkDir(Join(outdir, entry.1)))
      && TreeCopies(h.ops) == [CopyTree(entry.0, entry.1)]
  {
    var e := EnsureDir(dirs, Join(outdir, entry.1));
    var ct := CopyTree(entry.0, entry.1);
    var h := EntrySteps(entry, outdir, dirs);
    assert h.ops[..|h.ops| - 1] == e.ops;
    DirsAfterAppend(dirs, e.ops, [ct]);
    assert DirsAfter(e.dirs, [ct]) == DirsAfter(e.dirs, []);
    TreeCopiesAppend(e.ops, [ct]);
    assert TreeCopies([ct]) == [ct] + TreeCopies([]);
    if e.ops != [] {
      assert TreeCopies(e.ops) == [] + TreeCopies([]);
    }
  }

  /**
   * The table names five directories inside the MSYS2 prefix and five inside
   * the output directory: each path is its prefix followed by a separator
   * and at least one more component.
   */
  lemma ResourceTableUnderPrefixes(mingwPath: string, outdir: string)
    ensures |ResourceTable(mingwPath, outdir)| == 5
    ensures forall k :: 0 <= k < 5 ==>
      Under(ResourceTable(mingwPath, outdir)[k].0, mingwPath) &&
      Under(ResourceTable(mingwPath, outdir)[k].1, outdir)
  {
    forall k | 0 <= k < 5
      ensures Under(ResourceTable(mingwPath, outdir)[k].0, mingwPath)
    {
      JoinAllUnder(mingwPath, SOURCE_PARTS[k]);
    }
    forall k | 0 <= k < 5
      ensures Under(ResourceTable(mingwPath, outdir)[k].1, outdir)
    {
      JoinAllUnder(outdir, TARGET_PARTS[k]);
    }
  }

  /**
   * The directory the loop makes sure of, `join(outdir, target)`, is the
   * copy's target itself exactly when `outdir` is empty or absolute; for a
   * relative `outdir` it is a different path, with `outdir` repeated.
   */
  lemma ResourceDirIsTarget(mingwPath: string, outdir: string, k: int)
    requires 0 <= k < |ResourceTable(mingwPath, outdir)|
    ensures Join(outdir, ResourceTable(mingwPath, outdir)[k].1) == ResourceTable(mingwPath, outdir)[k].1
      <==> outdir == [] || IsAbsolute(outdir)
  {
    JoinAllKeepsKind(outdir, TARGET_PARTS[k]);
    JoinAllExtends(outdir, TARGET_PARTS[k]);
  }

  /** The final directory set is what the issued operations leave behind. */
  lemma {:induction false} ResourceStepsDirs(table: seq<(string, string)>, outdir: string, dirs: set<string>)
    ensures ResourceSteps(table, outdir, dirs).dirs == DirsAfter(dirs, ResourceSteps(table, outdir, dirs).ops)
    decreases |table|
  {
    if table != [] {
      var n := |table| - 1;
      var before := ResourceSteps(table[..n], outdir, dirs);
      var last := EntrySteps(table[n], outdir, before.dirs);
      ResourceStepsDirs(table[..n], outdir, dirs);
      EntryStepsShape(table[n], outdir, before.dirs);
      DirsAfterAppend(dirs, before.ops, last.ops);
    }
  }

  /** The recursive copies are the table's entries, one each, in table order. */
  lemma {:induction false} ResourceStepsCopies(table: seq<(string, string)>, outdir: string, dirs: set<string>)
    ensures var c := TreeCopies(ResourceSteps(table, outdir, dirs).ops);
      |c| == |table| && forall k :: 0 <= k < |table| ==> c[k] == CopyTree(table[k].0, table[k].1)
    decreases |table|
  {
    if table != [] {
      var n := |table| - 1;
      var before := ResourceSteps(table[..n], outdir, dirs);
      var last := EntrySteps(table[n], outdir, before.dirs);
      ResourceStepsCopies(table[..n], outdir, dirs);
      EntryStepsShape(table[n], outdir, before.dirs);
      TreeCopiesAppend(before.ops, last.ops);
      var c := TreeCopies(ResourceSteps(table, outdir, dirs).ops);
      assert c == TreeCopies(before.ops) + [CopyTree(table[n].0, table[n].1)];
      forall k | 0 <= k < n
        ensures c[k] == CopyTree(table[k].0, table[k].1)
      {
        assert table[k] == table[..n][k];
      }
    }
  }

  /** After `ops[..p]`, the recursive copy at `p`, if any, finds `join(outdir, target)` in place. */
  ghost predicate CopyReadyAt(dirs: set<string>, outdir: string, ops: seq<Op>, p: nat)
    requires p < |ops|
  {
    ops[p].CopyTree? ==> Join(outdir, ops[p].dst) in DirsAfter(dirs, ops[..p])
  }

  /**
   * The `MkDir` at position `p`, if any, names a directory that was absent,
   * and the next operation is the recursive copy whose `join(outdir, target)`
   * it is.
   */
  ghost predicate MkDirJustBefore(dirs: set<string>, outdir: string, ops: seq<Op>, p: nat)
    requires p < |ops|
  {
    ops[p].MkDir? ==>
      && ops[p].path !in DirsAfter(dirs, ops[..p])
      && p + 1 < |ops| && ops[p + 1].CopyTree?
      && ops[p].path == Join(outdir, ops[p + 1].dst)
  }

  /** Each recursive copy finds `join(outdir, target)` already in place. */
  lemma {:induction false} ResourceCopyReady(table: seq<(string, string)>, outdir: string, dirs: set<string>)
    ensures forall p :: 0 <= p < |ResourceSteps(table, outdir, dirs).ops| ==>
      CopyReadyAt(dirs, outdir, ResourceSteps(table, outdir, dirs).ops, p)
    decreases |table|
  {
    if table != [] {
      var n := |table| - 1;
      var before := ResourceSteps(table[..n], outdir, dirs);
      var last := EntrySteps(table[n], outdir, before.dirs);
      var ops := before.ops + last.ops;
      assert ops == ResourceSteps(table, outdir, dirs).ops;
      ResourceCopyReady(table[..n], outdir, dirs);
      ResourceStepsDirs(table[..n], outdir, dirs);
      EntryStepsShape(table[n], outdir, before.dirs);
      forall p | 0 <= p < |ops|
        ensures CopyReadyAt(dirs, outdir, ops, p)
      {
        if p < |before.ops| {
          assert CopyReadyAt(dirs, outdir, before.ops, p);
          assert ops[p] == before.ops[p];
          assert ops[..p] == before.ops[..p];
        } else {
          var q := p - |before.ops|;
          assert ops[p] == last.ops[q];
          assert ops[..p] == before.ops + last.ops[..q];
          DirsAfterAppend(dirs, before.ops, last.ops[..q]);
        }
      }
    }
  }

  /**
   * Each `MkDir` is issued for a directory that was absent, immediately
   * before the recursive copy whose `join(outdir, target)` it is.
   */
  lemma {:induction false} ResourceMkDirPrecedes(table: seq<(string, string)>, outdir: string, dirs: set<string>)
    ensures forall p :: 0 <= p < |ResourceSteps(table, outdir, dirs).ops| ==>
      MkDirJustBefore(dirs, outdir, ResourceSteps(table, outdir, dirs).ops, p)
    decreases |table|
  {
    if table != [] {
      var n := |table| - 1;
      var before := ResourceSteps(table[..n], outdir, dirs);
      var last := EntrySteps(table[n], outdir, before.dirs);
      var ops := before.ops + last.ops;
      assert ops == ResourceSteps(table, outdir, dirs).ops;
      ResourceMkDirPrecedes(table[..n], outdir, dirs);
      ResourceStepsDirs(table[..n], outdir, dirs);
      EntryStepsShape(table[n], outdir, before.dirs);
      forall p | 0 <= p < |ops|
        ensures MkDirJustBefore(dirs, outdir, ops, p)
      {
        if p < |before.ops| {
          assert MkDirJustBefore(dirs, outdir, before.ops, p);
          assert ops[p] == before.ops[p];
          if ops[p].MkDir? {
            assert ops[p + 1] == before.ops[p + 1];
            assert ops[..p] == before.ops[..p];
          }
        } else {
          var q := p - |before.ops|;
          assert ops[p] == last.ops[q];
          if ops[p].MkDir? {
            assert q == 0 && |last.ops| == 2;
            assert ops[p + 1] == last.ops[1] == CopyTree(table[n].0, table[n].1);
            assert ops[..p] == before.ops;
          }
        }
      }
    }
  }
}
