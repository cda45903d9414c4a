/** One merge pass, as specification functions over a snapshot of the board.

    A pass takes the list of merge groups findAllMerges returns and processes the groups
    one after the other on the live board (processMergeCycle): it credits the score with
    the sum of the group's ranks (times size - 1 for three or more tiles), writes rank + 1
    on the collapse target (the cell the player just dropped on, if it is in the group,
    otherwise the lowest index of the group) and empties the other members. The lemmas
    show that, because the groups are disjoint, this sequential processing has the
    simultaneous meaning: every group is judged on the board as it was when the pass began. */
module Merge {
  import opened Grid
  import opened Sorting

  // ---------------------------------------------------------------------------
  // What findAllMerges returns
  // ---------------------------------------------------------------------------

  /** A merge group: a whole same-rank component of at least two occupied cells,
      listed in ascending order. */
  ghost predicate IsMergeGroup(g: seq<int>, size: nat, group: seq<nat>)
    requires size > 0
  {
    && |group| >= 2
    && Ascending(group)
    && group[0] < |g| && g[group[0]] > 0
    && (forall x :: x in group ==> x < |g| && g[x] == g[group[0]])
    && Closed(g, size, group)
    && (forall x :: x in group ==> Connected(g, size, group[0], x))
  }

  /** No cell belongs to two groups of the list. */
  ghost predicate Disjoint(ms: seq<seq<nat>>)
  {
    forall a, b, x :: 0 <= a < b < |ms| && x in ms[a] ==> x !in ms[b]
  }

  /** The list findAllMerges promises: merge groups, pairwise disjoint, and together
      covering every occupied cell that has an equal-rank neighbour. */
  ghost predicate IsMergeList(g: seq<int>, size: nat, ms: seq<seq<nat>>)
    requires size > 0
  {
    && (forall m :: 0 <= m < |ms| ==> IsMergeGroup(g, size, ms[m]))
    && Disjoint(ms)
    && (forall i: nat :: i < |g| && HasEqualNeighbor(g, size, i) ==> exists m :: 0 <= m < |ms| && i in ms[m])
  }

  /** Each merge group is exactly the same-rank component of any of its cells. */
  lemma GroupIsComponent(g: seq<int>, size: nat, group: seq<nat>, x: nat)
    requires size > 0 && IsMergeGroup(g, size, group)
    ensures x in group <==> Connected(g, size, group[0], x)
  {
    if Connected(g, size, group[0], x) {
      ClosedHoldsComponent(g, size, group, group[0], x);
    }
  }

  /** A cell is in some group of a merge list exactly when it is occupied and has an
      equal-rank neighbour. */
  lemma InGroupIffEqualNeighbor(g: seq<int>, size: nat, ms: seq<seq<nat>>, i: nat)
    requires size > 0 && IsMergeList(g, size, ms) && i < |g|
    ensures (exists m :: 0 <= m < |ms| && i in ms[m]) <==> HasEqualNeighbor(g, size, i)
  {
    if m :| 0 <= m < |ms| && i in ms[m] {
      var group := ms[m];
      assert group[0] != group[1];
      if i == group[0] {
        ConnectedDistinctHasNeighbor(g, size, i, group[1]);
      } else {
        ConnectedSymmetric(g, size, group[0], i);
        ConnectedDistinctHasNeighbor(g, size, i, group[0]);
      }
    }
  }

  /** A pass that finds no group leaves a board on which no two 4-adjacent occupied
      cells hold the same rank. */
  lemma NoGroupsMeansStable(g: seq<int>, size: nat)
    requires size > 0 && IsMergeList(g, size, [])
    ensures Stable(g, size)
  {
  }

  // ---------------------------------------------------------------------------
  // Processing one pass
  // ---------------------------------------------------------------------------

  /** Groups that are non-empty, on the board, pairwise disjoint, each of one positive rank. */
  ghost predicate WellFormed(g: seq<int>, ms: seq<seq<nat>>)
  {
    && (forall m :: 0 <= m < |ms| ==> |ms[m]| > 0 && ms[m][0] < |g| && g[ms[m][0]] > 0)
    && (forall m, x :: 0 <= m < |ms| && x in ms[m] ==> x < |g| && g[x] == g[ms[m][0]])
    && Disjoint(ms)
  }

  lemma MergeListWellFormed(g: seq<int>, size: nat, ms: seq<seq<nat>>)
    requires size > 0 && IsMergeList(g, size, ms)
    ensures WellFormed(g, ms) && OnBoard(ms, |g|)
    ensures forall m :: 0 <= m < |ms| ==> |ms[m]| >= 2 && ms[m][0] != ms[m][1]
  {
    forall m | 0 <= m < |ms|
      ensures |ms[m]| >= 2 && ms[m][0] != ms[m][1]
    {
      assert IsMergeGroup(g, size, ms[m]);
    }
  }

  ghost predicate OnBoard(ms: seq<seq<nat>>, n: nat)
  {
    forall m :: 0 <= m < |ms| ==> |ms[m]| > 0 && forall x :: x in ms[m] ==> x < n
  }

  /** collapseTargetIndex: the anchor when the group holds it, otherwise group[0]. */
  function CollapseTarget(group: seq<nat>, anchor: int): (t: nat)
    requires |group| > 0
    ensures t in group
    ensures anchor in group ==> t == anchor
    ensures anchor !in group ==> t == group[0]
  {
    if anchor != -1 && anchor in group then anchor else group[0]
  }

  /** The board after one group is collapsed onto its target. */
  function MergeGroup(g: seq<int>, group: seq<nat>, anchor: int): (h: seq<int>)
    requires |group| > 0 && forall x :: x in group ==> x < |g|
    ensures |h| == |g|
  {
    var t := CollapseTarget(group, anchor);
    assert group[0] in group;
    var newValue := g[group[0]] + 1;
    seq(|g|, i requires 0 <= i < |g| => if i == t then newValue else if i in group then 0 else g[i])
  }

  /** The board after the groups are processed in order. */
  function PassResult(g: seq<int>, ms: seq<seq<nat>>, anchor: int): (h: seq<int>)
    requires OnBoard(ms, |g|)
    ensures |h| == |g|
  {
    if ms == [] then g
    else MergeGroup(PassResult(g, ms[..|ms| - 1], anchor), ms[|ms| - 1], anchor)
  }

  /** sumForScore: the sum of the ranks the group's cells hold. */
  function GroupSum(g: seq<int>, group: seq<nat>): int
    requires forall x :: x in group ==> x < |g|
  {
    if group == [] then 0
    else
      var k := |group| - 1;
      assert group[k] in group && forall x :: x in group[..k] ==> x in group;
      GroupSum(g, group[..k]) + g[group[k]]
  }

  /** The score credit of one group, computed on the board it is processed on. */
  function GroupCredit(g: seq<int>, group: seq<nat>): int
    requires forall x :: x in group ==> x < |g|
  {
    var sum := GroupSum(g, group);
    if |group| > 2 then sum * (|group| - 1) else sum
  }

  /** The score credit of a pass, group by group on the live board. */
  function PassCredit(g: seq<int>, ms: seq<seq<nat>>, anchor: int): int
    requires OnBoard(ms, |g|)
  {
    if ms == [] then 0
    else
      var pre := ms[..|ms| - 1];
      PassCredit(g, pre, anchor) + GroupCredit(PassResult(g, pre, anchor), ms[|ms| - 1])
  }

  /** The scoring rule for len tiles of rank r: r * len * (len - 1) for three or more
      tiles, r * len for a pair. */
  function RankCredit(r: int, len: nat): int
  {
    if len > 2 then r * len * (len - 1) else r * len
  }

  /** The credit of a pass judged on the snapshot taken when the pass began. */
  function SnapshotCredit(g: seq<int>, ms: seq<seq<nat>>): (credit: int)
    requires forall m :: 0 <= m < |ms| ==> |ms[m]| > 0 && ms[m][0] < |g| && g[ms[m][0]] > 0
    ensures credit >= |ms|
  {
    if ms == [] then 0
    else
      var last := ms[|ms| - 1];
      var r, len := g[last[0]], |last|;
      assert RankCredit(r, len) >= 1 by { RankCreditPositive(r, len); }
      SnapshotCredit(g, ms[..|ms| - 1]) + RankCredit(r, len)
  }

  lemma RankCreditPositive(r: int, len: nat)
    requires r >= 1 && len >= 1
    ensures RankCredit(r, len) >= 1
    ensures len >= 2 ==> RankCredit(r, len) >= 2
  {
    assert r * len >= len by { MulAtLeast(r, len); }
    if len > 2 {
      assert r * len * (len - 1) >= r * len by { MulAtLeast(len - 1, r * len); }
    }
  }

  /** Processing one more group: the pass over the first m + 1 groups is the pass over the
      first m followed by that group, for the board and for the score. */
  lemma PassPrefixStep(g: seq<int>, ms: seq<seq<nat>>, anchor: int, m: nat)
    requires OnBoard(ms, |g|) && m < |ms|
    ensures OnBoard(ms[..m], |g|) && OnBoard(ms[..m + 1], |g|)
    ensures PassResult(g, ms[..m + 1], anchor) == MergeGroup(PassResult(g, ms[..m], anchor), ms[m], anchor)
    ensures PassCredit(g, ms[..m + 1], anchor) ==
            PassCredit(g, ms[..m], anchor) + GroupCredit(PassResult(g, ms[..m], anchor), ms[m])
  {
    assert forall j :: 0 <= j < m ==> ms[..m][j] == ms[j];
    assert forall j :: 0 <= j < m + 1 ==> ms[..m + 1][j] == ms[j];
    assert ms[..m + 1][..m] == ms[..m];
  }

  lemma WellFormedPrefix(g: seq<int>, ms: seq<seq<nat>>, k: nat)
    requires WellFormed(g, ms) && k <= |ms|
    ensures WellFormed(g, ms[..k]) && OnBoard(ms[..k], |g|)
  {
    assert forall m :: 0 <= m < k ==> ms[..k][m] == ms[m];
  }

  /** The pass read cell by cell: a cell of a group ends with rank + 1 if it is the
      group's collapse target and empty otherwise; a cell outside every group keeps its
      rank. Each group is judged on the board as it stood before the pass. */
  lemma {:induction false} PassAt(g: seq<int>, ms: seq<seq<nat>>, anchor: int, i: nat)
    requires WellFormed(g, ms) && i < |g|
    ensures OnBoard(ms, |g|)
    ensures forall m :: 0 <= m < |ms| && i in ms[m] ==>
      PassResult(g, ms, anchor)[i] == if i == CollapseTarget(ms[m], anchor) then g[i] + 1 else 0
    ensures (forall m :: 0 <= m < |ms| ==> i !in ms[m]) ==> PassResult(g, ms, anchor)[i] == g[i]
  {
    WellFormedPrefix(g, ms, |ms|);
    assert ms[..|ms|] == ms;
    if ms != [] {
      var k := |ms| - 1;
      var pre, last := ms[..k], ms[k];
      WellFormedPrefix(g, ms, k);
      PassAt(g, pre, anchor, i);
      var c := PassResult(g, pre, anchor);
      assert PassResult(g, ms, anchor) == MergeGroup(c, last, anchor);
      assert last[0] in last;
      OutsideEarlierGroups(ms, pre, last[0]);
      PassAt(g, pre, anchor, last[0]);
      if i in last {
        OutsideEarlierGroups(ms, pre, i);
      } else {
        assert forall m :: 0 <= m < k ==> pre[m] == ms[m];
      }
    }
  }

  /** A cell of the last group of a disjoint list is in none of the groups before it. */
  lemma OutsideEarlierGroups(ms: seq<seq<nat>>, pre: seq<seq<nat>>, x: nat)
    requires Disjoint(ms) && ms != [] && pre == ms[..|ms| - 1] && x in ms[|ms| - 1]
    ensures forall m :: 0 <= m < |pre| ==> x !in pre[m]
  {
    forall m | 0 <= m < |pre|
      ensures x !in pre[m]
    {
      assert pre[m] == ms[m];
    }
  }

  lemma {:induction false} SumOfEqualRanks(g: seq<int>, group: seq<nat>, r: int)
    requires forall x :: x in group ==> x < |g| && g[x] == r
    ensures GroupSum(g, group) == r * |group|
  {
    if group != [] {
      var k := |group| - 1;
      assert forall x :: x in group[..k] ==> x in group;
      SumOfEqualRanks(g, group[..k], r);
      assert group[k] in group;
    }
  }

  /** sumForScore and the credit rule: a group of len cells that all hold rank r credits
      r * len * (len - 1) when len > 2 and r * len otherwise. */
  lemma GroupCreditRule(g: seq<int>, group: seq<nat>, r: int)
    requires forall x :: x in group ==> x < |g| && g[x] == r
    ensures GroupCredit(g, group) == RankCredit(r, |group|)
  {
    SumOfEqualRanks(g, group, r);
  }

  /** Collapsing a group of one positive rank keeps its target occupied and empties exactly
      the group's other cells; every other cell keeps its state. */
  lemma MergeGroupOccupied(g: seq<int>, group: seq<nat>, anchor: int)
    requires |group| > 0 && group[0] < |g| && g[group[0]] > 0
    requires forall x :: x in group ==> x < |g| && g[x] == g[group[0]]
    ensures OccupiedCells(MergeGroup(g, group, anchor)) ==
            OccupiedCells(g) - (Members(group) - {CollapseTarget(group, anchor)})
  {
    var h := MergeGroup(g, group, anchor);
    var t := CollapseTarget(group, anchor);
    forall i: nat
      ensures i in OccupiedCells(h) <==> i in OccupiedCells(g) - (Members(group) - {t})
    {
      if i < |g| && i in group {
        assert g[i] == g[group[0]];
      }
    }
  }

  /** The score a pass adds is the scoring rule applied to each group's rank on the
      snapshot: r * len * (len - 1) for len > 2 tiles, r * len for a pair. */
  lemma {:induction false} PassCreditIsSnapshotCredit(g: seq<int>, ms: seq<seq<nat>>, anchor: int)
    requires WellFormed(g, ms)
    ensures OnBoard(ms, |g|)
    ensures PassCredit(g, ms, anchor) == SnapshotCredit(g, ms)
  {
    WellFormedPrefix(g, ms, |ms|);
    assert ms[..|ms|] == ms;
    if ms != [] {
      var k := |ms| - 1;
      var pre, last := ms[..k], ms[k];
      WellFormedPrefix(g, ms, k);
      PassCreditIsSnapshotCredit(g, pre, anchor);
      var c := PassResult(g, pre, anchor);
      assert forall m :: 0 <= m < k ==> pre[m] == ms[m];
      forall x | x in last
        ensures c[x] == g[last[0]]
      {
        PassAt(g, pre, anchor, x);
      }
      SumOfEqualRanks(c, last, g[last[0]]);
    }
  }

  /** The score never goes down during a pass; a pass that merges something raises it. */
  lemma PassCreditPositive(g: seq<int>, ms: seq<seq<nat>>, anchor: int)
    requires WellFormed(g, ms)
    ensures OnBoard(ms, |g|)
    ensures PassCredit(g, ms, anchor) >= 0
    ensures ms != [] ==> PassCredit(g, ms, anchor) > 0
  {
    PassCreditIsSnapshotCredit(g, ms, anchor);
  }

  /** A pass never fills an empty cell, and a pass that merges a group of two or more
      distinct cells strictly shrinks the set of occupied cells. */
  lemma PassShrinks(g: seq<int>, ms: seq<seq<nat>>, anchor: int)
    requires WellFormed(g, ms)
    requires forall m :: 0 <= m < |ms| ==> |ms[m]| >= 2 && ms[m][0] != ms[m][1]
    requires forall i :: 0 <= i < |g| ==> g[i] >= 0
    ensures OnBoard(ms, |g|)
    ensures OccupiedCells(PassResult(g, ms, anchor)) <= OccupiedCells(g)
    ensures ms != [] ==> OccupiedCells(PassResult(g, ms, anchor)) < OccupiedCells(g)
    ensures forall i :: 0 <= i < |g| ==> PassResult(g, ms, anchor)[i] >= 0
  {
    WellFormedPrefix(g, ms, |ms|);
    assert ms[..|ms|] == ms;
    var h := PassResult(g, ms, anchor);
    forall i: nat | i < |g|
      ensures h[i] != 0 ==> g[i] != 0
      ensures h[i] >= 0
    {
      PassAt(g, ms, anchor, i);
      if exists m :: 0 <= m < |ms| && i in ms[m] {
        var m :| 0 <= m < |ms| && i in ms[m];
        assert h[i] == if i == CollapseTarget(ms[m], anchor) then g[i] + 1 else 0;
      }
    }
    if ms != [] {
      var group := ms[0];
      var t := CollapseTarget(group, anchor);
      var x: nat := if t == group[0] then group[1] else group[0];
      assert x in group && x != t;
      PassAt(g, ms, anchor, x);
      assert h[x] == 0;
      assert x in OccupiedCells(g) - OccupiedCells(h);
    }
  }

  /** A closed set of at least two distinct cells, all of one positive rank and all
      reachable from one of them, becomes a merge group once sorted. */
  lemma SortedComponentIsGroup(g: seq<int>, size: nat, group: seq<nat>, s: nat)
    requires size > 0 && |group| >= 2 && Distinct(group) && s in group
    requires s < |g| && g[s] > 0
    requires forall x :: x in group ==> x < |g| && g[x] == g[s] && Connected(g, size, s, x)
    requires Closed(g, size, group)
    ensures IsMergeGroup(g, size, Sort(group))
  {
    SortDistinct(group);
    var sorted := Sort(group);
    var first := sorted[0];
    assert first in group;
    ConnectedSymmetric(g, size, s, first);
    forall x | x in sorted
      ensures Connected(g, size, first, x)
    {
      ConnectedTransitive(g, size, first, s, x);
    }
  }

  // ---------------------------------------------------------------------------
  // The scan of findAllMerges
  // ---------------------------------------------------------------------------

  /** Every group of the list is a merge group. */
  ghost predicate AllMergeGroups(g: seq<int>, size: nat, ms: seq<seq<nat>>)
    requires size > 0
  {
    forall m :: 0 <= m < |ms| ==> IsMergeGroup(g, size, ms[m])
  }

  /** Every cell of every group is in `cells`. */
  ghost predicate Within(ms: seq<seq<nat>>, cells: set<nat>)
  {
    forall m, x :: 0 <= m < |ms| && x in ms[m] ==> x in cells
  }

  /** Every cell of `cells` that has an equal-rank neighbour is in some group. */
  ghost predicate Covered(g: seq<int>, size: nat, ms: seq<seq<nat>>, cells: set<nat>)
    requires size > 0
  {
    forall x: nat :: x in cells && x < |g| && HasEqualNeighbor(g, size, x) ==> exists m :: 0 <= m < |ms| && x in ms[m]
  }

  /** What the scan has established after visiting the cells in `visited`: its groups are
      disjoint merge groups made of visited cells, every visited cell is occupied, and every
      visited cell with an equal-rank neighbour lies in one of the groups. */
  ghost predicate ScanState(g: seq<int>, size: nat, ms: seq<seq<nat>>, visited: set<nat>)
    requires size > 0
  {
    && AllMergeGroups(g, size, ms)
    && Disjoint(ms)
    && Within(ms, visited)
    && (forall x :: x in visited ==> x < |g| && g[x] != 0)
    && Covered(g, size, ms, visited)
  }

  /** Once every occupied cell has been visited, the groups found form a merge list. */
  lemma ScanDone(g: seq<int>, size: nat, ms: seq<seq<nat>>, visited: set<nat>)
    requires size > 0 && ScanState(g, size, ms, visited)
    requires forall j: nat :: j < |g| && g[j] != 0 ==> j in visited
    ensures IsMergeList(g, size, ms)
  {
  }

  /** An unvisited cell's component shares no cell with the groups found so far, since
      every such group is closed and made of visited cells. */
  lemma ComponentIsFresh(g: seq<int>, size: nat, ms: seq<seq<nat>>, visited: set<nat>, group: seq<nat>, i: nat)
    requires size > 0 && i !in visited
    requires AllMergeGroups(g, size, ms) && Within(ms, visited)
    requires forall x :: x in group ==> Connected(g, size, i, x)
    ensures forall m, x :: 0 <= m < |ms| && x in ms[m] ==> x !in group
  {
    forall m, x | 0 <= m < |ms| && x in ms[m]
      ensures x !in group
    {
      if x in group {
        ConnectedSymmetric(g, size, i, x);
        assert IsMergeGroup(g, size, ms[m]);
        ClosedHoldsComponent(g, size, ms[m], x, i);
      }
    }
  }

  /** A closed set in which some cell has an equal-rank neighbour has two cells or more. */
  lemma ClosedWithNeighborIsPair(g: seq<int>, size: nat, group: seq<nat>, x: nat)
    requires size > 0 && Closed(g, size, group) && x in group && x < |g| && HasEqualNeighbor(g, size, x)
    ensures |group| > 1
  {
    var y: nat :| y < |g| && IsAdjacent(size, x, y) && g[y] == g[x];
    AdjacentIrreflexive(size, x);
    assert y in group;
    assert group[0] != x || group[0] != y;
  }

  lemma WithinGrow(ms: seq<seq<nat>>, cells: set<nat>, more: set<nat>)
    requires Within(ms, cells) && cells <= more
    ensures Within(ms, more)
  {
  }

  lemma AppendGroup(g: seq<int>, size: nat, ms: seq<seq<nat>>, cells: set<nat>, group: seq<nat>)
    requires size > 0 && AllMergeGroups(g, size, ms) && IsMergeGroup(g, size, group)
    requires Disjoint(ms) && forall m, x :: 0 <= m < |ms| && x in ms[m] ==> x !in group
    requires Within(ms, cells) && forall x :: x in group ==> x in cells
    ensures AllMergeGroups(g, size, ms + [group])
    ensures Disjoint(ms + [group])
    ensures Within(ms + [group], cells)
  {
    var next := ms + [group];
    forall a, b, x | 0 <= a < b < |next| && x in next[a]
      ensures x !in next[b]
    {
      assert next[a] == ms[a];
      if b < |ms| {
        assert next[b] == ms[b];
      }
    }
  }

  lemma CoverComponent(g: seq<int>, size: nat, ms: seq<seq<nat>>, visited: set<nat>, group: seq<nat>)
    requires size > 0 && Covered(g, size, ms, visited) && Closed(g, size, group)
    ensures var next := if |group| > 1 then ms + [Sort(group)] else ms;
            Covered(g, size, next, visited + Members(group))
  {
    var next := if |group| > 1 then ms + [Sort(group)] else ms;
    forall x: nat | x in visited + Members(group) && x < |g| && HasEqualNeighbor(g, size, x)
      ensures exists m :: 0 <= m < |next| && x in next[m]
    {
      if x in visited {
        var m :| 0 <= m < |ms| && x in ms[m];
        assert next[m] == ms[m];
      } else {
        ClosedWithNeighborIsPair(g, size, group, x);
        assert x in multiset(group);
        assert x in next[|ms|];
      }
    }
  }

  /** Visiting the whole same-rank component of an unvisited occupied cell, and keeping it
      (sorted) when it has two cells or more, keeps the scan's invariant. */
  lemma ScanStep(g: seq<int>, size: nat, ms: seq<seq<nat>>, visited: set<nat>, group: seq<nat>, i: nat)
    requires size > 0 && ScanState(g, size, ms, visited)
    requires i < |g| && g[i] > 0 && i !in visited
    requires Distinct(group) && |group| > 0 && group[0] == i && Closed(g, size, group)
    requires forall x :: x in group ==> x < |g| && g[x] == g[i] && Connected(g, size, i, x)
    ensures var next := if |group| > 1 then ms + [Sort(group)] else ms;
            ScanState(g, size, next, visited + Members(group))
  {
    CoverComponent(g, size, ms, visited, group);
    var seen := visited + Members(group);
    forall x | x in seen
      ensures x < |g| && g[x] != 0
    {
      if x !in visited {
        assert x in group;
      }
    }
    WithinGrow(ms, visited, seen);
    if |group| > 1 {
      ComponentIsFresh(g, size, ms, visited, group, i);
      SortedComponentIsGroup(g, size, group, i);
      SortDistinct(group);
      AppendGroup(g, size, ms, seen, Sort(group));
      assert ScanState(g, size, ms + [Sort(group)], seen);
    } else {
      assert ScanState(g, size, ms, seen);
    }
  }

  // ---------------------------------------------------------------------------
  // The cascade of processMergeCycle
  // ---------------------------------------------------------------------------

  /** The anchor of the k-th pass: the dropped cell in the first pass, none (-1) in the
      re-runs. */
  function PassAnchor(anchor: int, k: nat): (a: int)
    ensures k == 0 ==> a == anchor
    ensures k > 0 ==> a == -1
  {
    if k == 0 then anchor else -1
  }

  /** Pass k of a cascade: passes[k] is the merge list found on boards[k], it holds a
      group, and processing it (anchored as pass k is) leaves boards[k + 1]. */
  ghost predicate PassStep(size: nat, boards: seq<seq<int>>, passes: seq<seq<seq<nat>>>, anchor: int, k: nat)
    requires size > 0 && k < |passes| && k + 1 < |boards|
  {
    && IsMergeList(boards[k], size, passes[k]) && OnBoard(passes[k], |boards[k]|) && passes[k] != []
    && boards[k + 1] == PassResult(boards[k], passes[k], PassAnchor(anchor, k))
  }

  /** A whole cascade: each pass but the last finds a group on its board and leaves the
      next board, and the last pass, on the last board, finds nothing. */
  ghost predicate IsCascade(size: nat, boards: seq<seq<int>>, passes: seq<seq<seq<nat>>>, anchor: int)
    requires size > 0
  {
    && |boards| == |passes| > 0
    && (forall k :: 0 <= k < |passes| ==> OnBoard(passes[k], |boards[k]|))
    && (forall k :: 0 <= k < |passes| - 1 ==> PassStep(size, boards, passes, anchor, k))
    && IsMergeList(boards[|passes| - 1], size, passes[|passes| - 1])
    && passes[|passes| - 1] == []
  }

  /** The passes of a cascade that is still running: each found a group on its board and
      left the next one; the board after the last of them is boards[|passes|]. */
  ghost predicate CascadeSoFar(size: nat, boards: seq<seq<int>>, passes: seq<seq<seq<nat>>>, anchor: int)
    requires size > 0
  {
    && |boards| == |passes| + 1
    && (forall k :: 0 <= k < |passes| ==> OnBoard(passes[k], |boards[k]|))
    && (forall k :: 0 <= k < |passes| ==> PassStep(size, boards, passes, anchor, k))
  }

  /** The score the passes of a cascade add, each pass credited on the board it runs on. */
  ghost function CascadeCredit(boards: seq<seq<int>>, passes: seq<seq<seq<nat>>>, anchor: int): int
    requires |passes| <= |boards|
    requires forall k :: 0 <= k < |passes| ==> OnBoard(passes[k], |boards[k]|)
  {
    if passes == [] then 0
    else
      var k := |passes| - 1;
      CascadeCredit(boards, passes[..k], anchor) + PassCredit(boards[k], passes[k], PassAnchor(anchor, k))
  }

  /** The credit of the first passes depends only on the boards they run on. */
  lemma {:induction false} CascadeCreditFrame(b1: seq<seq<int>>, b2: seq<seq<int>>, passes: seq<seq<seq<nat>>>, anchor: int)
    requires |passes| <= |b1| && |passes| <= |b2| && forall k :: 0 <= k < |passes| ==> b1[k] == b2[k]
    requires forall k :: 0 <= k < |passes| ==> OnBoard(passes[k], |b1[k]|)
    ensures CascadeCredit(b1, passes, anchor) == CascadeCredit(b2, passes, anchor)
  {
    if passes != [] {
      var k := |passes| - 1;
      assert forall j :: 0 <= j < k ==> passes[..k][j] == passes[j];
      CascadeCreditFrame(b1, b2, passes[..k], anchor);
    }
  }

  /** A pass that finds groups extends the running cascade by its board and its credit. */
  lemma CascadeStep(size: nat, boards: seq<seq<int>>, passes: seq<seq<seq<nat>>>, anchor: int,
                    ms: seq<seq<nat>>, next: seq<int>)
    requires size > 0 && CascadeSoFar(size, boards, passes, anchor)
    requires IsMergeList(boards[|passes|], size, ms) && OnBoard(ms, |boards[|passes|]|) && ms != []
    requires next == PassResult(boards[|passes|], ms, PassAnchor(anchor, |passes|))
    ensures CascadeSoFar(size, boards + [next], passes + [ms], anchor)
    ensures CascadeCredit(boards + [next], passes + [ms], anchor) ==
            CascadeCredit(boards, passes, anchor) + PassCredit(boards[|passes|], ms, PassAnchor(anchor, |passes|))
  {
    var b, p := boards + [next], passes + [ms];
    CascadeCreditSnoc(boards, passes, anchor, ms, next);
    forall k | 0 <= k < |p|
      ensures PassStep(size, b, p, anchor, k)
    {
      if k < |passes| {
        assert PassStep(size, boards, passes, anchor, k);
        assert b[k] == boards[k] && b[k + 1] == boards[k + 1] && p[k] == passes[k];
      } else {
        assert b[k] == boards[|passes|] && b[k + 1] == next && p[k] == ms;
      }
    }
  }

  /** Recording one more pass adds that pass's credit on the board it ran on. */
  lemma CascadeCreditSnoc(boards: seq<seq<int>>, passes: seq<seq<seq<nat>>>, anchor: int,
                          ms: seq<seq<nat>>, next: seq<int>)
    requires |boards| == |passes| + 1
    requires forall k :: 0 <= k < |passes| ==> OnBoard(passes[k], |boards[k]|)
    requires OnBoard(ms, |boards[|passes|]|)
    ensures forall k :: 0 <= k < |passes| + 1 ==> OnBoard((passes + [ms])[k], |(boards + [next])[k]|)
    ensures CascadeCredit(boards + [next], passes + [ms], anchor) ==
            CascadeCredit(boards, passes, anchor) + PassCredit(boards[|passes|], ms, PassAnchor(anchor, |passes|))
  {
    var b, p := boards + [next], passes + [ms];
    assert forall k :: 0 <= k < |passes| ==> b[k] == boards[k] && p[k] == passes[k];
    assert b[|passes|] == boards[|passes|];
    assert p[..|passes|] == passes;
    CascadeCreditFrame(b, boards, passes, anchor);
  }

  /** A pass that finds nothing ends the cascade; it adds no credit. */
  lemma CascadeEnd(size: nat, boards: seq<seq<int>>, passes: seq<seq<seq<nat>>>, anchor: int)
    requires size > 0 && CascadeSoFar(size, boards, passes, anchor)
    requires IsMergeList(boards[|passes|], size, [])
    ensures IsCascade(size, boards, passes + [[]], anchor)
    ensures CascadeCredit(boards, passes + [[]], anchor) == CascadeCredit(boards, passes, anchor)
  {
    var p := passes + [[]];
    assert forall k :: 0 <= k < |passes| ==> p[k] == passes[k];
    assert p[..|passes|] == passes;
    forall k | 0 <= k < |p| - 1
      ensures PassStep(size, boards, p, anchor, k)
    {
      assert PassStep(size, boards, passes, anchor, k);
    }
  }

  /** One round of a running cascade, on the board its last pass left: the pass never
      lowers the score and never fills an empty cell. A pass with groups is recorded as the
      next step and strictly shrinks the occupied cells; a pass without groups leaves a
      stable board and closes the cascade. */
  lemma CascadeRound(size: nat, boards: seq<seq<int>>, passes: seq<seq<seq<nat>>>, anchor: int,
                     ms: seq<seq<nat>>, next: seq<int>)
    requires size > 0 && CascadeSoFar(size, boards, passes, anchor)
    requires IsMergeList(boards[|passes|], size, ms)
    requires forall i :: 0 <= i < |boards[|passes|]| ==> boards[|passes|][i] >= 0
    requires OnBoard(ms, |boards[|passes|]|)
    requires next == PassResult(boards[|passes|], ms, PassAnchor(anchor, |passes|))
    ensures PassCredit(boards[|passes|], ms, PassAnchor(anchor, |passes|)) >= 0
    ensures OccupiedCells(next) <= OccupiedCells(boards[|passes|])
    ensures ms == [] ==>
              && Stable(boards[|passes|], size) && next == boards[|passes|]
              && IsCascade(size, boards, passes + [[]], anchor)
              && CascadeCredit(boards, passes + [[]], anchor) == CascadeCredit(boards, passes, anchor)
    ensures ms != [] ==>
              && CascadeSoFar(size, boards + [next], passes + [ms], anchor)
              && CascadeCredit(boards + [next], passes + [ms], anchor) ==
                 CascadeCredit(boards, passes, anchor) + PassCredit(boards[|passes|], ms, PassAnchor(anchor, |passes|))
              && |OccupiedCells(next)| < |OccupiedCells(boards[|passes|])|
  {
    var cur, a := boards[|passes|], PassAnchor(anchor, |passes|);
    MergeListWellFormed(cur, size, ms);
    PassCreditPositive(cur, ms, a);
    PassShrinks(cur, ms, a);
    if ms == [] {
      NoGroupsMeansStable(cur, size);
      CascadeEnd(size, boards, passes, anchor);
    } else {
      SubsetSmaller(OccupiedCells(next), OccupiedCells(cur));
      CascadeStep(size, boards, passes, anchor, ms, next);
    }
  }

  /** Every pass of a running cascade empties at least one cell and fills none, so after n
      passes at least n cells have been emptied: a board with c occupied cells allows at
      most c passes that find groups. */
  lemma {:induction false} CascadeBound(size: nat, boards: seq<seq<int>>, passes: seq<seq<seq<nat>>>, anchor: int, n: nat)
    requires size > 0 && CascadeSoFar(size, boards, passes, anchor) && n <= |passes|
    requires forall i :: 0 <= i < |boards[0]| ==> boards[0][i] >= 0
    ensures |OccupiedCells(boards[n])| + n <= |OccupiedCells(boards[0])|
    ensures OccupiedCells(boards[n]) <= OccupiedCells(boards[0])
    ensures forall i :: 0 <= i < |boards[n]| ==> boards[n][i] >= 0
  {
    if n > 0 {
      CascadeBound(size, boards, passes, anchor, n - 1);
      assert PassStep(size, boards, passes, anchor, n - 1);
      var g, ms := boards[n - 1], passes[n - 1];
      MergeListWellFormed(g, size, ms);
      PassShrinks(g, ms, PassAnchor(anchor, n - 1));
      SubsetSmaller(OccupiedCells(boards[n]), OccupiedCells(g));
    }
  }
}
