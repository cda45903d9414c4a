/** The game session: the board, the score, the pending tile and the drag state, together
    with the handlers that change them (init, generateNextCap, findConnectedGroup,
    findAllMerges, processMergeCycle and the three pointer handlers).

    The board is an array of size * size cells, row by row; 0 stands for an empty cell and a
    positive number for the rank of the tile on it. The pending tile is `nextCap`, 0 when
    there is none. Every outcome of Math.random() the handlers consume is a `Draw` argument. */
module Game {
  import opened Grid
  import opened Sorting
  import opened Spawn
  import opened Merge

  /** A placed tile can be moved only from this score on. */
  const MIN_SCORE_TO_MOVE: int := 3

  /** Where the dragged tile was picked up: the pending slot ("next"), a cell of the
      board, or nowhere (the -1 of the idle drag record). */
  datatype Source = Pending | Cell(index: nat) | NoSource

  /** The drag record, without its pointer coordinates. */
  datatype Drag = Drag(value: int, source: Source, moveCost: int)

  const NO_DRAG: Drag := Drag(0, NoSource, 0)

  /** What a pointer position lands on: the pending-tile slot, a cell of the board,
      or neither. The slot lies below the board, so the cases exclude each other. */
  datatype Hit = PendingSlot | OnCell(index: nat) | Outside

  /** The price of moving a placed tile: a third of the score, rounded down. Moving is
      allowed from a score of 3, so it always costs something and leaves at least 2. */
  function MoveCost(score: int): (cost: int)
    requires score >= MIN_SCORE_TO_MOVE
    ensures 1 <= cost <= score - 2
    ensures 3 * cost <= score < 3 * cost + 3
  {
    score / 3
  }

  /** Every cell of `visited` is reached from `start` by the recorded same-rank path. */
  ghost predicate Reaches(g: seq<int>, size: nat, start: nat, paths: map<nat, seq<nat>>, visited: set<nat>)
    requires size > 0
  {
    forall x :: x in visited ==>
      x in paths && IsPath(g, size, paths[x]) && paths[x][0] == start && paths[x][|paths[x]| - 1] == x
  }

  lemma ReachesExtend(g: seq<int>, size: nat, start: nat, paths: map<nat, seq<nat>>, visited: set<nat>,
                      from: nat, y: nat)
    requires size > 0 && Reaches(g, size, start, paths, visited) && from in visited
    requires y < |g| && IsAdjacent(size, from, y) && start < |g| && g[y] == g[start]
    ensures Reaches(g, size, start, paths[y := paths[from] + [y]], visited + {y})
  {
    PathExtend(g, size, paths[from], y);
  }

  /** The state of the breadth-first search from `start` over cells of rank `value`:
      `visited` is what was dequeued (`group`) plus what waits (`queue`), each listed once,
      every visited cell has the rank and a recorded path from the start, and every
      same-rank neighbour of a dequeued cell has been visited. */
  ghost predicate Searching(g: seq<int>, size: nat, start: nat, value: int, group: seq<nat>,
                            queue: seq<nat>, visited: set<nat>, paths: map<nat, seq<nat>>)
    requires size > 0
  {
    && (forall x :: x in visited <==> x in group || x in queue)
    && Distinct(group) && Distinct(queue)
    && (forall x :: x in queue ==> x !in group)
    && (|group| > 0 ==> group[0] == start)
    && (|group| == 0 ==> queue == [start])
    && start in visited
    && (forall x :: x in visited ==> x < |g| && g[x] == value)
    && Reaches(g, size, start, paths, visited)
    && (forall x: nat, y: nat :: x in group && y < |g| && IsAdjacent(size, x, y) && g[y] == value ==> y in visited)
  }

  /** group.forEach((idx) => visited.add(idx)). */
  method MarkVisited(visited: set<nat>, group: seq<nat>) returns (result: set<nat>)
    ensures result == visited + Members(group)
  {
    result := visited;
    for k := 0 to |group|
      invariant result == visited + Members(group[..k])
    {
      assert group[..k + 1] == group[..k] + [group[k]];
      result := result + {group[k]};
    }
    assert group[..|group|] == group;
  }

  /** The bookkeeping of the starting layout: `cells` lists the caps placed so far, once
      each, and `emptyCells` lists, once each, the cells of the board that hold no cap. */
  ghost predicate Layout(g: seq<int>, emptyCells: seq<nat>, cells: seq<nat>)
  {
    && Distinct(cells) && Distinct(emptyCells)
    && (forall e: nat :: e in emptyCells <==> e < |g| && e !in cells)
    && (forall x :: x in cells ==> x < |g|)
    && (forall i :: 0 <= i < |g| ==> g[i] >= 0)
    && (forall i :: 0 <= i < |g| ==> (g[i] != 0 <==> i in cells))
  }

  /** Putting a cap on the k-th empty cell and removing that cell from the empty list keeps
      the bookkeeping, with one empty cell fewer. */
  lemma PlaceKeepsLayout(g: seq<int>, cap: nat, emptyCells: seq<nat>, cells: seq<nat>, k: nat)
    requires 1 <= cap && k < |emptyCells| && Layout(g, emptyCells, cells)
    requires emptyCells[k] < |g|
    ensures Layout(g[emptyCells[k] := cap], emptyCells[..k] + emptyCells[k + 1..], cells + [emptyCells[k]])
    ensures |emptyCells[..k] + emptyCells[k + 1..]| == |emptyCells| - 1
  {
    var cell := emptyCells[k];
    var g', rest, placed := g[cell := cap], emptyCells[..k] + emptyCells[k + 1..], cells + [cell];
    assert cell !in cells;
    DistinctRemove(emptyCells, k);
    DistinctAppend(cells, cell);
    forall i | 0 <= i < |g'|
      ensures g'[i] >= 0 && (g'[i] != 0 <==> i in placed)
    {
      assert i in placed <==> i in cells || i == cell;
    }
    forall e: nat
      ensures e in rest <==> e < |g'| && e !in placed
    {
      assert e in placed <==> e in cells || e == cell;
    }
  }

  /** The first |cells| caps stand on the listed cells of g, in order. */
  ghost predicate Holding(g: seq<int>, cells: seq<nat>, caps: seq<nat>)
  {
    |cells| <= |caps| && forall j :: 0 <= j < |cells| ==> cells[j] < |g| && g[cells[j]] == caps[j]
  }

  /** Putting the next cap on a cell not used so far keeps the caps already placed. */
  lemma PlaceKeepsHolding(g: seq<int>, cells: seq<nat>, caps: seq<nat>, cell: nat)
    requires Holding(g, cells, caps) && |cells| < |caps| && cell < |g| && cell !in cells
    ensures Holding(g[cell := caps[|cells|]], cells + [cell], caps)
  {
    var next := cells + [cell];
    forall j | 0 <= j < |cells|
      ensures next[j] == cells[j] && cells[j] != cell
    {
    }
  }

  class Session {
    const size: nat
    const grid: array<int>
    var score: int
    var nextCap: int
    var isProcessing: bool
    var isDragging: bool
    var dragged: Drag
    var dropTarget: int
    /** The starting caps in the order init deals them, and the cells they went to. */
    ghost var startCaps: seq<nat>
    ghost var startCells: seq<nat>

    /** The drag record matches what was picked up: the pending tile, free of charge, or an
        occupied cell, priced at a third of the score, while no merge cascade runs. */
    ghost predicate DragFits()
      reads this, grid
    {
      match dragged.source
      case Pending => dragged.value == nextCap && nextCap != 0 && dragged.moveCost == 0
      case Cell(k) =>
        && k < grid.Length && grid[k] != 0 && dragged.value == grid[k]
        && !isProcessing && score >= MIN_SCORE_TO_MOVE && dragged.moveCost == MoveCost(score)
      case NoSource => false
    }

    ghost predicate Valid()
      reads this, grid
    {
      && size >= 1 && grid.Length == size * size
      && (forall i :: 0 <= i < grid.Length ==> grid[i] >= 0)
      && score >= 0
      && 0 <= nextCap <= 2
      && (!isDragging ==> dragged == NO_DRAG && dropTarget == -1)
      && (isDragging ==> DragFits())
      && (dropTarget == -1 ||
          (0 <= dropTarget < grid.Length && grid[dropTarget] == 0 && dragged.source != Cell(dropTarget)))
    }

    /** init: an empty board with StartCount(size) starting caps of ranks 1 to 3 laid out
        on it, a score of 0, a pending tile, and nothing in progress. */
    constructor Init(size: nat, shuffle: seq<Draw>, placement: seq<Draw>, next: Draw)
      requires size >= 1
      requires |shuffle| >= StartCount(size) - 1 && |placement| >= StartCount(size)
      ensures Valid() && fresh(grid) && this.size == size
      ensures score == 0 && !isProcessing && !isDragging && dropTarget == -1
      ensures nextCap == NextCapValue(next)
      ensures |OccupiedCells(grid[..])| == StartCount(size)
      ensures forall i :: 0 <= i < grid.Length ==> 0 <= grid[i] <= 3
      ensures |startCaps| == |startCells| == StartCount(size) && Distinct(startCells)
      ensures multiset(startCaps) == multiset(CyclicRanks(StartCount(size)))
      ensures forall k :: 0 <= k < |startCells| ==> startCells[k] < grid.Length && grid[startCells[k]] == startCaps[k]
      ensures forall i :: 0 <= i < grid.Length && i !in startCells ==> grid[i] == 0
      ensures Spread(size, startCells)
    {
      this.size := size;
      grid := new int[size * size](_ => 0);
      score := 0;
      nextCap := 0;
      isProcessing := false;
      isDragging := false;
      dragged := NO_DRAG;
      dropTarget := -1;
      new;
      var caps := ComputeStartingCaps(size, shuffle);
      ghost var cells := PlaceStartingCaps(caps, placement);
      assert OccupiedCells(grid[..]) == Members(cells);
      DistinctCardinality(cells);
      GenerateNextCap(next);
      startCaps, startCells := caps, cells;
    }

    /** The layout loop of init: each cap goes to a distinct empty cell, chosen among the
        empty cells that touch no cap placed so far whenever there is such a cell. The ghost
        result lists the chosen cells in order. */
    method PlaceStartingCaps(caps: seq<nat>, draws: seq<Draw>) returns (ghost cells: seq<nat>)
      requires Valid() && !isDragging
      requires forall i :: 0 <= i < grid.Length ==> grid[i] == 0
      requires |caps| <= grid.Length && |draws| >= |caps|
      requires forall k :: 0 <= k < |caps| ==> 1 <= caps[k] <= 3
      modifies grid
      ensures Valid()
      ensures |cells| == |caps| && Distinct(cells)
      ensures forall k :: 0 <= k < |cells| ==> cells[k] < grid.Length && grid[cells[k]] == caps[k]
      ensures forall i :: 0 <= i < grid.Length && i !in cells ==> grid[i] == 0
      ensures Spread(size, cells)
    {
      cells := [];
      var emptyCells: seq<nat> := seq(grid.Length, i requires 0 <= i => i);
      forall e: nat
        ensures e in emptyCells <==> e < grid.Length
      {
        if e < grid.Length {
          assert emptyCells[e] == e;
        }
        if e in emptyCells {
          var j :| 0 <= j < |emptyCells| && emptyCells[j] == e;
        }
      }
      for k := 0 to |caps|
        invariant |cells| == k && |emptyCells| == grid.Length - k
        invariant Layout(grid[..], emptyCells, cells)
        invariant Holding(grid[..], cells, caps)
        invariant Spread(size, cells)
      {
        if |emptyCells| > 0 {
          var cell;
          ghost var placed, before := cells, grid[..];
          cell, emptyCells, cells := PlaceCap(caps[k], draws[k], emptyCells, cells);
          PlaceKeepsHolding(before, placed, caps, cell);
        }
      }
    }

    /** The startingCaps.forEach step of init: one cap goes to the cell PickCell draws
        among the empty cells, which leaves the list of empty cells. */
    method PlaceCap(cap: nat, draw: Draw, emptyCells: seq<nat>, ghost cells: seq<nat>)
      returns (cell: nat, newEmptyCells: seq<nat>, ghost newCells: seq<nat>)
      requires size >= 1 && grid.Length == size * size && 1 <= cap && |emptyCells| > 0
      requires Layout(grid[..], emptyCells, cells)
      requires Spread(size, cells)
      modifies grid
      ensures cell in emptyCells && newCells == cells + [cell]
      ensures grid[..] == old(grid[..])[cell := cap]
      ensures Layout(grid[..], newEmptyCells, newCells) && |newEmptyCells| == |emptyCells| - 1
      ensures Spread(size, newCells)
    {
      var occupied := OccupiedIndices(grid[..]);
      cell := PickCell(size, emptyCells, occupied, draw);
      forall x
        ensures x in occupied <==> x in cells
      {
        if x in cells {
          assert x < grid.Length && grid[x] != 0;
        }
      }
      PickCellSpreads(size, emptyCells, occupied, cells, draw);
      SpreadExtend(size, cells, cell);
      var emptyIdx := IndexOf(emptyCells, cell);
      PlaceKeepsLayout(grid[..], cap, emptyCells, cells, emptyIdx);
      newEmptyCells := emptyCells[..emptyIdx] + emptyCells[emptyIdx + 1..];
      grid[cell] := cap;
      newCells := cells + [cell];
    }

    /** generateNextCap: deals a pending tile when there is none (rank 1 with probability
        0.8, otherwise 2); an existing pending tile is kept. */
    method GenerateNextCap(r: Draw)
      requires Valid()
      modifies this`nextCap
      ensures Valid()
      ensures old(nextCap) == 0 ==> nextCap == NextCapValue(r)
      ensures old(nextCap) != 0 ==> nextCap == old(nextCap)
    {
      if nextCap == 0 {
        nextCap := NextCapValue(r);
      }
    }

    /** findConnectedGroup: the breadth-first search from startIndex over 4-adjacent cells
        of the same rank. For an empty start cell the group is empty; otherwise it starts
        with startIndex, lists each cell once, and holds exactly the cells reachable from
        startIndex over equal ranks. */
    method FindConnectedGroup(startIndex: nat) returns (group: seq<nat>)
      requires size >= 1 && grid.Length == size * size && startIndex < grid.Length
      ensures grid[startIndex] == 0 ==> group == []
      ensures grid[startIndex] != 0 ==> |group| > 0 && group[0] == startIndex
      ensures Distinct(group)
      ensures forall x :: x in group ==>
                x < grid.Length && grid[x] == grid[startIndex] && Connected(grid[..], size, startIndex, x)
      ensures Closed(grid[..], size, group)
    {
      group := [];
      var valueToMatch := grid[startIndex];
      if valueToMatch == 0 {
        return;
      }
      ghost var g := grid[..];
      var queue: seq<nat> := [startIndex];
      var visited: set<nat> := {startIndex};
      ghost var paths: map<nat, seq<nat>> := map[startIndex := [startIndex]];
      ghost var sameRank := set i: nat | i < |g| && g[i] == valueToMatch;
      assert IsPath(g, size, [startIndex]);
      while |queue| > 0
        invariant grid[..] == g
        invariant Searching(g, size, startIndex, valueToMatch, group, queue, visited, paths)
        invariant visited <= sameRank
        decreases sameRank - visited, |queue|
      {
        ghost var visited0, queue0 := visited, queue;
        group, queue, visited, paths := VisitFront(valueToMatch, group, queue, visited, startIndex, paths);
        if visited == visited0 {
          assert |queue| < |queue0|;
        } else {
          assert sameRank - visited < sameRank - visited0;
        }
      }
      forall x | x in group
        ensures Connected(g, size, startIndex, x)
      {
        assert IsPath(g, size, paths[x]);
      }
    }

    /** One round of the while loop of findConnectedGroup: the front of the queue joins the
        group and its unseen same-rank neighbours are queued. */
    method VisitFront(valueToMatch: int, group: seq<nat>, queue: seq<nat>, visited: set<nat>,
                      ghost start: nat, ghost paths: map<nat, seq<nat>>)
      returns (newGroup: seq<nat>, newQueue: seq<nat>, newVisited: set<nat>, ghost newPaths: map<nat, seq<nat>>)
      requires size >= 1 && grid.Length == size * size && start < grid.Length && |queue| > 0
      requires Searching(grid[..], size, start, valueToMatch, group, queue, visited, paths)
      ensures Searching(grid[..], size, start, valueToMatch, newGroup, newQueue, newVisited, newPaths)
      ensures newGroup == group + [queue[0]]
      ensures visited <= newVisited && (newVisited == visited ==> |newQueue| < |queue|)
    {
      var currentIndex := queue[0];
      assert currentIndex in visited;
      DistinctTail(queue);
      DistinctAppend(group, currentIndex);
      newGroup := group + [currentIndex];
      newQueue, newVisited, newPaths := EnqueueNeighbors(currentIndex, valueToMatch, queue[1..], visited, newGroup, start, paths);
    }

    /** The neighbors.forEach step of findConnectedGroup: every 4-neighbour of `current`
        that holds the searched rank and was not seen yet is marked seen and queued (its
        path from the start recorded); nothing else changes. */
    method EnqueueNeighbors(current: nat, valueToMatch: int, queue: seq<nat>, visited: set<nat>,
                            ghost group: seq<nat>, ghost start: nat, ghost paths: map<nat, seq<nat>>)
      returns (newQueue: seq<nat>, newVisited: set<nat>, ghost newPaths: map<nat, seq<nat>>)
      requires size >= 1 && grid.Length == size * size && current in group
      requires start < grid.Length && grid[start] == valueToMatch
      requires forall x :: x in visited <==> x in group || x in queue
      requires Distinct(queue) && forall x :: x in queue ==> x !in group
      requires forall x :: x in visited ==> x < grid.Length && grid[x] == valueToMatch
      requires Reaches(grid[..], size, start, paths, visited)
      ensures forall x :: x in newVisited <==> x in group || x in newQueue
      ensures Distinct(newQueue) && forall x :: x in newQueue ==> x !in group
      ensures forall x :: x in newVisited ==> x < grid.Length && grid[x] == valueToMatch
      ensures Reaches(grid[..], size, start, newPaths, newVisited)
      ensures visited <= newVisited && (newVisited == visited ==> newQueue == queue)
      ensures forall y: nat :: y < grid.Length && IsAdjacent(size, current, y) && grid[y] == valueToMatch ==> y in newVisited
    {
      ghost var g := grid[..];
      newQueue, newVisited, newPaths := queue, visited, paths;
      var neighbors := Neighbors(size, current);
      for k := 0 to |neighbors|
        invariant forall x :: x in newVisited <==> x in group || x in newQueue
        invariant Distinct(newQueue) && forall x :: x in newQueue ==> x !in group
        invariant forall x :: x in newVisited ==> x < grid.Length && grid[x] == valueToMatch
        invariant Reaches(g, size, start, newPaths, newVisited)
        invariant visited <= newVisited && (newVisited == visited ==> newQueue == queue)
        invariant forall j :: 0 <= j < k && grid[neighbors[j]] == valueToMatch ==> neighbors[j] in newVisited
      {
        var neighborIndex := neighbors[k];
        if neighborIndex !in newVisited && grid[neighborIndex] == valueToMatch {
          ReachesExtend(g, size, start, newPaths, newVisited, current, neighborIndex);
          newPaths := newPaths[neighborIndex := newPaths[current] + [neighborIndex]];
          newVisited := newVisited + {neighborIndex};
          DistinctAppend(newQueue, neighborIndex);
          newQueue := newQueue + [neighborIndex];
        }
      }
      forall y: nat | y < grid.Length && IsAdjacent(size, current, y) && grid[y] == valueToMatch
        ensures y in newVisited
      {
        NeighborsIffAdjacent(size, current, y);
      }
    }

    /** findAllMerges: scans the board in index order and collects, for every occupied
        cell not seen yet, its same-rank component when that has at least two cells,
        sorted ascending. The result is a merge list of the board. */
    method FindAllMerges() returns (merges: seq<seq<nat>>)
      requires Valid()
      ensures IsMergeList(grid[..], size, merges)
    {
      merges := [];
      var visited: set<nat> := {};
      ghost var g := grid[..];
      for i := 0 to grid.Length
        invariant ScanState(g, size, merges, visited)
        invariant forall j: nat :: j < i && g[j] != 0 ==> j in visited
      {
        if grid[i] != 0 && i !in visited {
          var group := FindConnectedGroup(i);
          ScanStep(g, size, merges, visited, group, i);
          if |group| > 1 {
            merges := merges + [Sort(group)];
          }
          visited := MarkVisited(visited, group);
          assert group[0] in visited;
        }
      }
      ScanDone(g, size, merges, visited);
    }

    /** One pass of processMergeCycle over the groups findAllMerges returns: each group, in
        turn, credits its score and collapses onto its target. The board and the score end
        as the specification functions of the pass say; a merge cascade only empties cells,
        so a chosen drop target stays free. */
    method MergePass(userActionIndex: int) returns (merges: seq<seq<nat>>)
      requires Valid() && isProcessing
      modifies this`score, grid
      ensures Valid()
      ensures IsMergeList(old(grid[..]), size, merges)
      ensures OnBoard(merges, grid.Length)
      ensures grid[..] == PassResult(old(grid[..]), merges, userActionIndex)
      ensures score == old(score) + PassCredit(old(grid[..]), merges, userActionIndex)
    {
      merges := FindAllMerges();
      ghost var g0 := grid[..];
      MergeListWellFormed(g0, size, merges);
      for m := 0 to |merges|
        invariant grid[..] == PassResult(g0, merges[..m], userActionIndex)
        invariant score == old(score) + PassCredit(g0, merges[..m], userActionIndex)
      {
        PassPrefixStep(g0, merges, userActionIndex, m);
        CollapseGroup(merges[m], userActionIndex);
      }
      assert merges[..|merges|] == merges;
      PassShrinks(g0, merges, userActionIndex);
      PassCreditPositive(g0, merges, userActionIndex);
      if dropTarget != -1 {
        assert dropTarget !in OccupiedCells(g0);
      }
    }

    /** The merges.forEach step of processMergeCycle: credits the score with the group's
        rank sum (times length - 1 for three tiles or more), writes rank + 1 on the collapse
        target and empties the group's other cells, as MergeGroup and GroupCredit say. */
    method CollapseGroup(group: seq<nat>, userActionIndex: int)
      requires |group| > 0 && forall x :: x in group ==> x < grid.Length
      modifies this`score, grid
      ensures grid[..] == MergeGroup(old(grid[..]), group, userActionIndex)
      ensures score == old(score) + GroupCredit(old(grid[..]), group)
    {
      ghost var c := grid[..];
      assert forall k :: 0 <= k < |group| ==> group[k] in group;
      var sumForScore := 0;
      for k := 0 to |group|
        invariant forall x :: x in group[..k] ==> x in group
        invariant sumForScore == GroupSum(c, group[..k])
      {
        assert group[..k + 1][..k] == group[..k];
        sumForScore := sumForScore + grid[group[k]];
      }
      assert group[..|group|] == group;
      assert sumForScore == GroupSum(c, group);
      if |group| > 2 {
        score := score + sumForScore * (|group| - 1);
      } else {
        score := score + sumForScore;
      }
      assert score == old(score) + GroupCredit(c, group);
      var commonValue := grid[group[0]];
      var newValue := commonValue + 1;
      var collapseTargetIndex := group[0];
      if userActionIndex != -1 && userActionIndex in group {
        collapseTargetIndex := userActionIndex;
      }
      for k := 0 to |group|
        invariant score == old(score) + GroupCredit(c, group)
        invariant forall i :: 0 <= i < grid.Length ==>
                    grid[i] == (if i in group[..k] && i != collapseTargetIndex then 0 else c[i])
      {
        assert group[..k + 1] == group[..k] + [group[k]];
        if group[k] != collapseTargetIndex {
          grid[group[k]] := 0;
        }
      }
      assert group[..|group|] == group;
      grid[collapseTargetIndex] := newValue;
    }

    /** processMergeCycle, with its chain of delayed re-runs run to the end: the merge
        cascade (RunCascade), then the pending tile is dealt if missing, the result says
        whether the board is full, and the cascade is over. */
    method ProcessMergeCycle(userActionIndex: int, r: Draw)
      returns (gameOver: bool, ghost boards: seq<seq<int>>, ghost passes: seq<seq<seq<nat>>>)
      requires Valid() && isProcessing
      modifies this`score, this`nextCap, this`isProcessing, grid
      ensures Valid() && !isProcessing
      ensures IsCascade(size, boards, passes, userActionIndex)
      ensures boards[0] == old(grid[..]) && grid[..] == boards[|boards| - 1]
      ensures score == old(score) + CascadeCredit(boards, passes, userActionIndex)
      ensures Stable(grid[..], size)
      ensures score >= old(score)
      ensures OccupiedCells(grid[..]) <= old(OccupiedCells(grid[..]))
      ensures old(nextCap) == 0 ==> nextCap == NextCapValue(r)
      ensures old(nextCap) != 0 ==> nextCap == old(nextCap)
      ensures gameOver <==> forall i :: 0 <= i < grid.Length ==> grid[i] != 0
    {
      boards, passes := RunCascade(userActionIndex);
      GenerateNextCap(r);
      gameOver := CheckGameOver(grid[..]);
      isProcessing := false;
    }

    /** The passes of processMergeCycle: passes are repeated, anchored on the dropped cell
        only in the first, until a pass finds no group. The ghost results record the board
        each pass ran on and the groups it found; the board ends stable, and the score has
        grown by the credit of every pass. */
    method RunCascade(userActionIndex: int) returns (ghost boards: seq<seq<int>>, ghost passes: seq<seq<seq<nat>>>)
      requires Valid() && isProcessing
      modifies this`score, grid
      ensures Valid() && isProcessing
      ensures IsCascade(size, boards, passes, userActionIndex)
      ensures boards[0] == old(grid[..]) && grid[..] == boards[|boards| - 1]
      ensures score == old(score) + CascadeCredit(boards, passes, userActionIndex)
      ensures Stable(grid[..], size)
      ensures score >= old(score)
      ensures OccupiedCells(grid[..]) <= old(OccupiedCells(grid[..]))
    {
      var anchor := userActionIndex;
      boards, passes := [grid[..]], [];
      while true
        invariant Valid() && isProcessing
        invariant CascadeSoFar(size, boards, passes, userActionIndex)
        invariant boards[0] == old(grid[..]) && grid[..] == boards[|passes|]
        invariant anchor == PassAnchor(userActionIndex, |passes|)
        invariant score == old(score) + CascadeCredit(boards, passes, userActionIndex)
        invariant score >= old(score)
        invariant OccupiedCells(grid[..]) <= old(OccupiedCells(grid[..]))
        decreases |OccupiedCells(grid[..])|
      {
        var found;
        found, boards, passes := CascadePass(anchor, userActionIndex, boards, passes);
        if !found {
          break;
        }
        anchor := -1;
      }
    }

    /** One round of the cascade loop: a merge pass on the current board. A pass that
        finds groups is recorded as the next step of the running cascade, with its credit;
        one that finds none closes the cascade and leaves a stable board. */
    method CascadePass(anchor: int, ghost userActionIndex: int,
                       ghost boards: seq<seq<int>>, ghost passes: seq<seq<seq<nat>>>)
      returns (found: bool, ghost boards': seq<seq<int>>, ghost passes': seq<seq<seq<nat>>>)
      requires Valid() && isProcessing
      requires CascadeSoFar(size, boards, passes, userActionIndex) && grid[..] == boards[|passes|]
      requires anchor == PassAnchor(userActionIndex, |passes|)
      modifies this`score, grid
      ensures Valid() && isProcessing
      ensures |boards'| > 0 && boards'[0] == boards[0] && |passes'| == |passes| + 1
      ensures found ==> CascadeSoFar(size, boards', passes', userActionIndex) && grid[..] == boards'[|passes'|]
      ensures !found ==> IsCascade(size, boards', passes', userActionIndex) && grid[..] == boards'[|boards'| - 1]
      ensures !found ==> Stable(grid[..], size) && grid[..] == old(grid[..])
      ensures found ==> |OccupiedCells(grid[..])| < |old(OccupiedCells(grid[..]))|
      ensures OccupiedCells(grid[..]) <= old(OccupiedCells(grid[..]))
      ensures forall k :: 0 <= k < |passes'| ==> OnBoard(passes'[k], |boards'[k]|)
      ensures |passes'| <= |boards'|
      ensures score == old(score) - CascadeCredit(boards, passes, userActionIndex)
                                  + CascadeCredit(boards', passes', userActionIndex)
      ensures score >= old(score)
    {
      var merges := MergePass(anchor);
      CascadeRound(size, boards, passes, userActionIndex, merges, grid[..]);
      if |merges| == 0 {
        found, boards', passes' := false, boards, passes + [[]];
      } else {
        found, boards', passes' := true, boards + [grid[..]], passes + [merges];
      }
    }

    /** handleInteractionStart: while no drag is in progress, a press on the pending slot
        picks up the pending tile (even during a cascade); otherwise, outside a cascade, a
        press on an occupied cell picks up its tile if the score has reached
        MIN_SCORE_TO_MOVE, priced at MoveCost(score). Anything else changes nothing. */
    method InteractionStart(hit: Hit)
      requires Valid() && (hit.OnCell? ==> hit.index < grid.Length)
      modifies this`isDragging, this`dragged
      ensures Valid()
      ensures old(isDragging) ==> isDragging && dragged == old(dragged)
      ensures !old(isDragging) && hit == PendingSlot && nextCap != 0 ==>
                isDragging && dragged == Drag(nextCap, Pending, 0)
      ensures !old(isDragging) && hit.OnCell? ==>
                (isDragging <==> !isProcessing && grid[hit.index] != 0 && score >= MIN_SCORE_TO_MOVE)
      ensures !old(isDragging) && hit.OnCell? && isDragging ==>
                dragged == Drag(grid[hit.index], Cell(hit.index), MoveCost(score))
      ensures !old(isDragging) && (hit == Outside || (hit == PendingSlot && nextCap == 0)) ==>
                !isDragging && dragged == old(dragged)
    {
      if isDragging {
        return;
      }
      if nextCap != 0 && hit == PendingSlot {
        isDragging := true;
        dragged := Drag(nextCap, Pending, 0);
        return;
      }
      if isProcessing {
        return;
      }
      if hit.OnCell? && grid[hit.index] != 0 {
        if score >= MIN_SCORE_TO_MOVE {
          isDragging := true;
          var currentMoveCost := MoveCost(score);
          dragged := Drag(grid[hit.index], Cell(hit.index), currentMoveCost);
        }
      }
    }

    /** handleInteractionMove: during a drag, the drop target becomes the cell under the
        pointer when that cell is empty and is not where the tile came from, and -1
        otherwise. Without a drag nothing changes. */
    method InteractionMove(hit: Hit)
      requires Valid() && (hit.OnCell? ==> hit.index < grid.Length)
      modifies this`dropTarget
      ensures Valid()
      ensures !isDragging ==> dropTarget == old(dropTarget)
      ensures isDragging ==>
                (dropTarget != -1 <==> hit.OnCell? && grid[hit.index] == 0 && dragged.source != Cell(hit.index))
      ensures isDragging && dropTarget != -1 ==> hit.OnCell? && dropTarget == hit.index
    {
      if !isDragging {
        return;
      }
      if hit.OnCell? && grid[hit.index] == 0 && dragged.source != Cell(hit.index) {
        dropTarget := hit.index;
      } else {
        dropTarget := -1;
      }
    }

    /** The successful-drop branch of handleInteractionEnd: the move price is paid, the
        tile lands on the drop target, its source is emptied (a board tile) or a new
        pending tile is dealt (the pending tile), the drag record is cleared and a merge
        cascade is started. */
    method Drop(r: Draw)
      requires Valid() && isDragging && dropTarget != -1
      modifies this`score, this`nextCap, this`isProcessing, this`isDragging, this`dragged,
               this`dropTarget, grid
      ensures Valid() && isProcessing && !isDragging
      ensures score == old(score) - old(dragged.moveCost)
      ensures old(dragged.source).Cell? ==>
                && score >= 2
                && grid[..] == old(grid[..])[old(dropTarget) := old(dragged.value)][old(dragged.source).index := 0]
                && nextCap == old(nextCap)
      ensures old(dragged.source) == Pending ==>
                && score == old(score)
                && grid[..] == old(grid[..])[old(dropTarget) := old(dragged.value)]
                && nextCap == NextCapValue(r)
    {
      var finalDropTarget := dropTarget;
      var cap := dragged;
      isDragging := false;
      dropTarget := -1;
      dragged := NO_DRAG;
      if cap.moveCost > 0 {
        score := score - cap.moveCost;
      }
      grid[finalDropTarget] := cap.value;
      if cap.source == Pending {
        nextCap := 0;
        GenerateNextCap(r);
      } else {
        grid[cap.source.index] := 0;
      }
      isProcessing := true;
    }

    /** handleInteractionEnd: a drag released over a drop target places the tile (Drop) and
        runs the merge cascade it starts; a drag released elsewhere is cancelled. Either way
        the drag ends. With no drag nothing happens. The result reports a full board after a
        drop. */
    method InteractionEnd(nextDraw: Draw, cascadeDraw: Draw)
      returns (gameOver: bool, ghost boards: seq<seq<int>>, ghost passes: seq<seq<seq<nat>>>)
      requires Valid()
      modifies this`score, this`nextCap, this`isProcessing, this`isDragging, this`dragged,
               this`dropTarget, grid
      ensures Valid() && !isDragging && dropTarget == -1
      ensures !old(isDragging) || old(dropTarget) == -1 ==>
                && grid[..] == old(grid[..]) && score == old(score) && nextCap == old(nextCap)
                && isProcessing == old(isProcessing) && !gameOver
      ensures old(isDragging) && old(dropTarget) != -1 ==>
                && IsCascade(size, boards, passes, old(dropTarget))
                && boards[0] == (if old(dragged.source).Cell?
                                 then old(grid[..])[old(dropTarget) := old(dragged.value)][old(dragged.source).index := 0]
                                 else old(grid[..])[old(dropTarget) := old(dragged.value)])
                && grid[..] == boards[|boards| - 1]
                && score == old(score) - old(dragged.moveCost) + CascadeCredit(boards, passes, old(dropTarget))
                && nextCap == (if old(dragged.source) == Pending then NextCapValue(nextDraw)
                               else if old(nextCap) == 0 then NextCapValue(cascadeDraw)
                               else old(nextCap))
                && !isProcessing && Stable(grid[..], size)
                && (gameOver <==> forall i :: 0 <= i < grid.Length ==> grid[i] != 0)
    {
      gameOver, boards, passes := false, [], [];
      if !isDragging {
        return;
      }
      var finalDropTarget := dropTarget;
      if finalDropTarget != -1 {
        Drop(nextDraw);
        gameOver, boards, passes := ProcessMergeCycle(finalDropTarget, cascadeDraw);
      } else {
        isDragging := false;
        dropTarget := -1;
        dragged := NO_DRAG;
      }
    }
  }
}
