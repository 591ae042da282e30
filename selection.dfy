/**
 * The deduplicating selection of `copy_bin_file` (GtkPacker.py) and of the
 * top-level loop of CopyDependencies.py: walk the scanner's records in order,
 * keep those whose resolved path (field 2) is an MSYS2 path, and copy each
 * dependency name (field 0) only the first time it is seen.
 *
 * The functions below describe what the loop has done after it has walked a
 * prefix of the records; they recurse on the last record for that reason.
 */
module Selection {
  import opened Paths
  import opened Classify
  import opened Trace

  /** Every scanner record has the three fields the loop reads. */
  predicate WellFormed(info: seq<seq<string>>) {
    forall i :: 0 <= i < |info| ==> |info[i]| >= 3
  }

  /** The classifier accepts the record's resolved path. */
  predicate Accepts(arch: string, item: seq<string>)
    requires |item| >= 3
  {
    IsMsys2Dep(arch, item[2])
  }

  /** The copy the loop issues for a record: resolved path into `bin/<name>`. */
  function CopyOf(bin: string, item: seq<string>): Op
    requires |item| >= 3
  {
    Copy(item[2], Join(bin, item[0]))
  }

  /** The dependency set after the loop, starting from `seen`. */
  function Picked(arch: string, info: seq<seq<string>>, seen: set<string>): set<string>
    requires WellFormed(info)
    decreases |info|
  {
    if info == [] then seen
    else
      var n := |info| - 1;
      var before := Picked(arch, info[..n], seen);
      if Accepts(arch, info[n]) then before + {info[n][0]} else before
  }

  /** Indices of the records the loop copies, in the order it copies them. */
  function Chosen(arch: string, info: seq<seq<string>>, seen: set<string>): seq<nat>
    requires WellFormed(info)
    decreases |info|
  {
    if info == [] then []
    else
      var n := |info| - 1;
      Chosen(arch, info[..n], seen)
        + (if Accepts(arch, info[n]) && info[n][0] !in Picked(arch, info[..n], seen) then [n] else [])
  }

  /** The copies the loop issues into `bin`, in order. */
  function CopyPlan(arch: string, info: seq<seq<string>>, bin: string, seen: set<string>): seq<Op>
    requires WellFormed(info)
    decreases |info|
  {
    if info == [] then []
    else
      var n := |info| - 1;
      CopyPlan(arch, info[..n], bin, seen)
        + (if Accepts(arch, info[n]) && info[n][0] !in Picked(arch, info[..n], seen)
           then [CopyOf(bin, info[n])] else [])
  }

  /**
   * Record `j` is the first accepted record carrying its name, and that name
   * was not already in `seen`.
   */
  predicate IsFirst(arch: string, info: seq<seq<string>>, seen: set<string>, j: int)
    requires WellFormed(info)
  {
    && 0 <= j < |info|
    && Accepts(arch, info[j])
    && info[j][0] !in seen
    && forall k :: 0 <= k < j && Accepts(arch, info[k]) ==> info[k][0] != info[j][0]
  }

  /**
   * The dependency set only grows, and it ends up holding exactly the names
   * it started with plus the names of the accepted records.
   */
  lemma {:induction false} PickedIff(arch: string, info: seq<seq<string>>, seen: set<string>, x: string)
    requires WellFormed(info)
    ensures x in Picked(arch, info, seen) <==>
      x in seen || exists j :: 0 <= j < |info| && Accepts(arch, info[j]) && info[j][0] == x
    decreases |info|
  {
    if info != [] {
      var n := |info| - 1;
      var pre := info[..n];
      PickedIff(arch, pre, seen, x);
      if exists j :: 0 <= j < |pre| && Accepts(arch, pre[j]) && pre[j][0] == x {
        var j :| 0 <= j < |pre| && Accepts(arch, pre[j]) && pre[j][0] == x;
        assert info[j] == pre[j];
      }
      if exists j :: 0 <= j < |info| && Accepts(arch, info[j]) && info[j][0] == x {
        var j :| 0 <= j < |info| && Accepts(arch, info[j]) && info[j][0] == x;
        if j < n {
          assert pre[j] == info[j];
        }
      }
    }
  }

  /** Being first among a prefix is the same as being first among the whole. */
  lemma IsFirstPrefix(arch: string, info: seq<seq<string>>, seen: set<string>, n: nat, j: int)
    requires WellFormed(info) && n <= |info| && j < n
    ensures IsFirst(arch, info[..n], seen, j) <==> IsFirst(arch, info, seen, j)
  {
    var pre := info[..n];
    if 0 <= j {
      assert pre[j] == info[j];
      assert forall k :: 0 <= k < j ==> pre[k] == info[k];
    }
  }

  /** The loop copies a record exactly when it is the first accepted one with its name. */
  lemma {:induction false} ChosenIff(arch: string, info: seq<seq<string>>, seen: set<string>, j: int)
    requires WellFormed(info)
    ensures j in Chosen(arch, info, seen) <==> IsFirst(arch, info, seen, j)
    decreases |info|
  {
    if info != [] {
      var n := |info| - 1;
      var pre := info[..n];
      ChosenIff(arch, pre, seen, j);
      ChosenBounded(arch, pre, seen);
      if j < n {
        IsFirstPrefix(arch, info, seen, n, j);
      } else if j == n {
        PickedIff(arch, pre, seen, info[n][0]);
        assert forall k :: 0 <= k < n ==> pre[k] == info[k];
      }
    }
  }

  /** Every chosen index is a record index, and the indices strictly increase. */
  lemma {:induction false} ChosenBounded(arch: string, info: seq<seq<string>>, seen: set<string>)
    requires WellFormed(info)
    ensures forall k :: 0 <= k < |Chosen(arch, info, seen)| ==> Chosen(arch, info, seen)[k] < |info|
    ensures forall a, b :: 0 <= a < b < |Chosen(arch, info, seen)| ==>
      Chosen(arch, info, seen)[a] < Chosen(arch, info, seen)[b]
    decreases |info|
  {
    if info != [] {
      ChosenBounded(arch, info[..|info| - 1], seen);
    }
  }

  /** The loop issues one copy per chosen record, from its resolved path into `bin`. */
  lemma {:induction false} CopyPlanChosen(arch: string, info: seq<seq<string>>, bin: string, seen: set<string>)
    requires WellFormed(info)
    ensures |CopyPlan(arch, info, bin, seen)| == |Chosen(arch, info, seen)|
    ensures forall k :: 0 <= k < |Chosen(arch, info, seen)| ==>
      Chosen(arch, info, seen)[k] < |info| &&
      CopyPlan(arch, info, bin, seen)[k] == CopyOf(bin, info[Chosen(arch, info, seen)[k]])
    decreases |info|
  {
    ChosenBounded(arch, info, seen);
    if info != [] {
      var n := |info| - 1;
      var pre := info[..n];
      CopyPlanChosen(arch, pre, bin, seen);
      ChosenBounded(arch, pre, seen);
      var c := Chosen(arch, info, seen);
      forall k | 0 <= k < |Chosen(arch, pre, seen)|
        ensures CopyPlan(arch, info, bin, seen)[k] == CopyOf(bin, info[c[k]])
      {
        assert pre[c[k]] == info[c[k]];
      }
    }
  }

  /**
   * First occurrence wins: the loop copies every name it had not seen from
   * the first accepted record carrying it, and from no other record; the
   * names it copies are pairwise different and none was in `seen`.
   */
  lemma FirstOccurrenceWins(arch: string, info: seq<seq<string>>, bin: string, seen: set<string>)
    requires WellFormed(info)
    ensures forall j :: IsFirst(arch, info, seen, j) ==> CopyOf(bin, info[j]) in CopyPlan(arch, info, bin, seen)
    ensures |CopyPlan(arch, info, bin, seen)| == |Chosen(arch, info, seen)|
    ensures forall k :: 0 <= k < |Chosen(arch, info, seen)| ==>
      IsFirst(arch, info, seen, Chosen(arch, info, seen)[k]) &&
      CopyPlan(arch, info, bin, seen)[k] == CopyOf(bin, info[Chosen(arch, info, seen)[k]])
    ensures forall a, b :: 0 <= a < b < |Chosen(arch, info, seen)| ==>
      Chosen(arch, info, seen)[a] < Chosen(arch, info, seen)[b] < |info| &&
      info[Chosen(arch, info, seen)[a]][0] != info[Chosen(arch, info, seen)[b]][0]
  {
    var c := Chosen(arch, info, seen);
    var plan := CopyPlan(arch, info, bin, seen);
    CopyPlanChosen(arch, info, bin, seen);
    ChosenBounded(arch, info, seen);
    forall j | IsFirst(arch, info, seen, j)
      ensures CopyOf(bin, info[j]) in plan
    {
      ChosenIff(arch, info, seen, j);
      var k :| 0 <= k < |c| && c[k] == j;
      assert plan[k] == CopyOf(bin, info[j]);
    }
    forall k | 0 <= k < |c|
      ensures IsFirst(arch, info, seen, c[k])
    {
      ChosenIff(arch, info, seen, c[k]);
    }
    forall a, b | 0 <= a < b < |c|
      ensures info[c[a]][0] != info[c[b]][0]
    {
      ChosenIff(arch, info, seen, c[a]);
      ChosenIff(arch, info, seen, c[b]);
    }
  }

  /** One more record: the loop's state after `i + 1` records, from its state after `i`. */
  lemma PlanStep(arch: string, info: seq<seq<string>>, bin: string, seen: set<string>, i: nat)
    requires WellFormed(info) && i < |info|
    ensures var take := Accepts(arch, info[i]) && info[i][0] !in Picked(arch, info[..i], seen);
      && Picked(arch, info[..i + 1], seen) == (if Accepts(arch, info[i]) then Picked(arch, info[..i], seen) + {info[i][0]} else Picked(arch, info[..i], seen))
      && CopyPlan(arch, info[..i + 1], bin, seen) == CopyPlan(arch, info[..i], bin, seen) + (if take then [CopyOf(bin, info[i])] else [])
  {
    assert info[..i + 1][..i] == info[..i];
  }
}
