/** The board: a row-major array of size*size cells, each holding 0 (empty) or a
    positive rank. This module holds the geometry of the board (rows, columns,
    4-adjacency), the occupancy queries and the notion of a same-rank path that
    the merge rules are stated with. */
module Grid {

  // ---------------------------------------------------------------------------
  // Geometry
  // ---------------------------------------------------------------------------

  function Row(size: nat, i: nat): nat
    requires size > 0
  {
    i / size
  }

  function Col(size: nat, i: nat): nat
    requires size > 0
  {
    i % size
  }

  function Abs(x: int): nat
  {
    if x < 0 then -x else x
  }

  /** isAdjacent: same row and neighbouring columns, or same column and neighbouring rows. */
  predicate IsAdjacent(size: nat, i: nat, j: nat)
    requires size > 0
  {
    var rowDiff := Abs(Row(size, i) - Row(size, j));
    var colDiff := Abs(Col(size, i) - Col(size, j));
    (rowDiff == 0 && colDiff == 1) || (rowDiff == 1 && colDiff == 0)
  }

  lemma AdjacentSymmetric(size: nat, i: nat, j: nat)
    requires size > 0
    ensures IsAdjacent(size, i, j) <==> IsAdjacent(size, j, i)
  {
  }

  lemma AdjacentIrreflexive(size: nat, i: nat)
    requires size > 0
    ensures !IsAdjacent(size, i, i)
  {
  }

  /** Every index splits into its row and column. */
  lemma Split(size: nat, i: nat)
    requires size > 0
    ensures i == Row(size, i) * size + Col(size, i)
    ensures Col(size, i) < size
  {
  }

  lemma MulAtLeast(a: int, b: nat)
    requires a >= 1
    ensures a * b >= b
  {
    assert a * b == (a - 1) * b + b;
    assert (a - 1) * b >= 0;
  }

  lemma MulStep(r: int, size: nat)
    ensures (r + 1) * size == r * size + size
    ensures (r - 1) * size == r * size - size
  {
  }

  /** A row and a column in range name exactly one index. */
  lemma Join(size: nat, r: nat, c: nat)
    requires c < size
    ensures Row(size, r * size + c) == r
    ensures Col(size, r * size + c) == c
  {
    var x := r * size + c;
    var q, m := x / size, x % size;
    assert x == q * size + m;
    if q > r {
      MulAtLeast(q - r, size);
    } else if q < r {
      MulAtLeast(r - q, size);
    }
  }

  /** Below the last row there is no cell of the board. */
  lemma RowsBelow(size: nat, r: nat, c: nat)
    requires r < size && c < size
    ensures r * size + c < size * size
  {
    MulAtLeast(size - r, size);
    assert (size - r) * size == size * size - r * size;
  }

  /** An index of the board lies in a row of the board. */
  lemma RowInRange(size: nat, i: nat)
    requires size > 0 && i < size * size
    ensures Row(size, i) < size
  {
    var r := Row(size, i);
    Split(size, i);
    if r >= size {
      MulAtLeast(r - size + 1, size);
    }
  }

  lemma Up(size: nat, r: nat, c: nat)
    requires c < size && 0 < r
    ensures r * size + c - size >= 0
    ensures Row(size, r * size + c - size) == r - 1 && Col(size, r * size + c - size) == c
  {
    MulStep(r, size);
    Join(size, r - 1, c);
  }

  lemma Down(size: nat, r: nat, c: nat)
    requires c < size && r < size - 1
    ensures r * size + c + size < size * size
    ensures Row(size, r * size + c + size) == r + 1 && Col(size, r * size + c + size) == c
  {
    MulStep(r, size);
    Join(size, r + 1, c);
    RowsBelow(size, r + 1, c);
  }

  lemma Left(size: nat, r: nat, c: nat)
    requires 0 < c < size
    ensures Row(size, r * size + c - 1) == r && Col(size, r * size + c - 1) == c - 1
  {
    Join(size, r, c - 1);
  }

  lemma Right(size: nat, r: nat, c: nat)
    requires c < size - 1 && r < size
    ensures r * size + c + 1 < size * size
    ensures Row(size, r * size + c + 1) == r && Col(size, r * size + c + 1) == c + 1
  {
    Join(size, r, c + 1);
    RowsBelow(size, r, c + 1);
  }

  /** The four candidate neighbours of cell i, with their rows and columns. */
  lemma Candidates(size: nat, i: nat)
    requires size > 0 && i < size * size
    ensures var r, c := Row(size, i), Col(size, i);
      && r < size && c < size
      && (r > 0 ==> i >= size && Row(size, i - size) == r - 1 && Col(size, i - size) == c)
      && (r < size - 1 ==> i + size < size * size && Row(size, i + size) == r + 1 && Col(size, i + size) == c)
      && (c > 0 ==> i >= 1 && Row(size, i - 1) == r && Col(size, i - 1) == c - 1)
      && (c < size - 1 ==> i + 1 < size * size && Row(size, i + 1) == r && Col(size, i + 1) == c + 1)
  {
    var r, c := Row(size, i), Col(size, i);
    Split(size, i);
    RowInRange(size, i);
    if r > 0 { Up(size, r, c); }
    if r < size - 1 { Down(size, r, c); }
    if c > 0 { Left(size, r, c); }
    if c < size - 1 { Right(size, r, c); }
  }

  /** getNeighbors: up, down, left, right, each only when it exists (no wraparound). */
  function Neighbors(size: nat, i: nat): (ns: seq<nat>)
    requires size > 0 && i < size * size
    ensures |ns| <= 4
    ensures forall k :: 0 <= k < |ns| ==> ns[k] < size * size && IsAdjacent(size, i, ns[k])
    ensures forall k, l :: 0 <= k < l < |ns| ==> ns[k] != ns[l]
  {
    Candidates(size, i);
    var row, col := Row(size, i), Col(size, i);
    (if row > 0 then [i - size] else [])
    + (if row < size - 1 then [i + size] else [])
    + (if col > 0 then [i - 1] else [])
    + (if col < size - 1 then [i + 1] else [])
  }

  /** getNeighbors and isAdjacent agree on the board: j is listed as a neighbour of i
      exactly when the two cells are 4-adjacent. */
  lemma {:induction false} NeighborsIffAdjacent(size: nat, i: nat, j: nat)
    requires size > 0 && i < size * size && j < size * size
    ensures j in Neighbors(size, i) <==> IsAdjacent(size, i, j)
  {
    var ns := Neighbors(size, i);
    if IsAdjacent(size, i, j) {
      var ri, ci := Row(size, i), Col(size, i);
      var rj, cj := Row(size, j), Col(size, j);
      Split(size, i);
      Split(size, j);
      RowInRange(size, i);
      RowInRange(size, j);
      if ri == rj {
        if cj == ci + 1 {
          assert j == i + 1;
        } else {
          assert j == i - 1;
        }
      } else if rj == ri + 1 {
        MulStep(ri, size);
        assert j == i + size;
      } else {
        MulStep(ri, size);
        assert j == i - size;
      }
    }
  }

  /** isAdjacent in terms of indices: the cells 4-adjacent to i are i - size, i + size,
      i - 1 and i + 1, each only when it does not leave the board or wrap around a row edge. */
  lemma AdjacentByIndex(size: nat, i: nat, j: nat)
    requires size > 0 && i < size * size && j < size * size
    ensures IsAdjacent(size, i, j) <==>
              || (Row(size, i) > 0 && j == i - size)
              || (Row(size, i) < size - 1 && j == i + size)
              || (Col(size, i) > 0 && j == i - 1)
              || (Col(size, i) < size - 1 && j == i + 1)
  {
    NeighborsIffAdjacent(size, i, j);
  }

  // ---------------------------------------------------------------------------
  // Occupancy
  // ---------------------------------------------------------------------------

  /** The indices of the occupied cells. */
  function OccupiedCells(g: seq<int>): set<nat>
  {
    set i: nat | i < |g| && g[i] != 0
  }

  /** A proper subset has fewer members. */
  lemma SubsetSmaller(a: set<nat>, b: set<nat>)
    requires a < b
    ensures |a| < |b|
  {
    var d := b - a;
    assert b == a + d;
    assert a * d == {};
    var x :| x in d;
  }

  /** checkGameOver: the game is over exactly when no cell is empty. */
  function CheckGameOver(g: seq<int>): (over: bool)
    ensures over <==> forall i :: 0 <= i < |g| ==> g[i] != 0
  {
    0 !in g
  }

  /** getEmptyCellIndex: the lowest empty index, or -1 on a full board. */
  function GetEmptyCellIndex(g: seq<int>): (r: int)
    ensures -1 <= r < |g|
    ensures r == -1 <==> CheckGameOver(g)
    ensures r >= 0 ==> g[r] == 0 && forall j :: 0 <= j < r ==> g[j] != 0
  {
    if |g| == 0 then -1
    else if g[0] == 0 then 0
    else
      var r := GetEmptyCellIndex(g[1..]);
      if r == -1 then -1 else r + 1
  }

  // ---------------------------------------------------------------------------
  // Same-rank paths and components
  // ---------------------------------------------------------------------------

  /** A walk over 4-adjacent cells of the board that all hold the same rank. */
  ghost predicate IsPath(g: seq<int>, size: nat, p: seq<nat>)
    requires size > 0
  {
    && |p| >= 1
    && p[0] < |g|
    && (forall k :: 0 <= k < |p| ==> p[k] < |g| && g[p[k]] == g[p[0]])
    && (forall k :: 0 <= k < |p| - 1 ==> Step(size, p, k))
  }

  /** The k-th step of a walk goes between 4-adjacent cells. */
  ghost predicate Step(size: nat, p: seq<nat>, k: nat)
    requires size > 0 && k + 1 < |p|
  {
    IsAdjacent(size, p[k], p[k + 1])
  }

  /** x lies in the same-rank component as s. */
  ghost predicate Connected(g: seq<int>, size: nat, s: nat, x: nat)
    requires size > 0
  {
    exists p :: IsPath(g, size, p) && p[0] == s && p[|p| - 1] == x
  }

  /** A set of cells (listed in a sequence) that contains every equal-rank neighbour
      of each of its members. */
  ghost predicate Closed(g: seq<int>, size: nat, c: seq<nat>)
    requires size > 0
  {
    forall x: nat, y: nat :: x in c && y < |g| && IsAdjacent(size, x, y) && x < |g| && g[y] == g[x] ==> y in c
  }

  /** The occupied cell i has a 4-neighbour of the same rank. */
  ghost predicate HasEqualNeighbor(g: seq<int>, size: nat, i: nat)
    requires size > 0 && i < |g|
  {
    g[i] != 0 && exists j: nat :: j < |g| && IsAdjacent(size, i, j) && g[j] == g[i]
  }

  /** No two 4-adjacent occupied cells hold the same rank. */
  ghost predicate Stable(g: seq<int>, size: nat)
    requires size > 0
  {
    forall i: nat :: i < |g| ==> !HasEqualNeighbor(g, size, i)
  }

  function Reverse(p: seq<nat>): (r: seq<nat>)
    ensures |r| == |p|
    ensures forall k :: 0 <= k < |p| ==> r[k] == p[|p| - 1 - k]
  {
    if p == [] then [] else Reverse(p[1..]) + [p[0]]
  }

  lemma PathSingleton(g: seq<int>, size: nat, s: nat)
    requires size > 0 && s < |g|
    ensures Connected(g, size, s, s)
  {
    assert IsPath(g, size, [s]);
  }

  /** A path extended by one equal-rank neighbour of its last cell is a path. */
  lemma PathExtend(g: seq<int>, size: nat, p: seq<nat>, y: nat)
    requires size > 0 && IsPath(g, size, p)
    requires y < |g| && IsAdjacent(size, p[|p| - 1], y) && g[y] == g[p[0]]
    ensures IsPath(g, size, p + [y]) && (p + [y])[0] == p[0]
  {
    var q := p + [y];
    forall k | 0 <= k < |q| - 1
      ensures Step(size, q, k)
    {
      if k < |p| - 1 {
        assert Step(size, p, k);
      }
    }
  }

  /** Walking a path backwards gives a path. */
  lemma PathReverse(g: seq<int>, size: nat, p: seq<nat>)
    requires size > 0 && IsPath(g, size, p)
    ensures IsPath(g, size, Reverse(p))
  {
    var r := Reverse(p);
    forall k | 0 <= k < |r| - 1
      ensures Step(size, r, k)
    {
      assert Step(size, p, |p| - 2 - k);
      AdjacentSymmetric(size, p[|p| - 2 - k], p[|p| - 1 - k]);
    }
  }

  lemma ConnectedSymmetric(g: seq<int>, size: nat, s: nat, x: nat)
    requires size > 0 && Connected(g, size, s, x)
    ensures Connected(g, size, x, s)
  {
    var p :| IsPath(g, size, p) && p[0] == s && p[|p| - 1] == x;
    PathReverse(g, size, p);
    var r := Reverse(p);
    assert r[0] == x && r[|r| - 1] == s;
  }

  lemma ConnectedTransitive(g: seq<int>, size: nat, s: nat, x: nat, y: nat)
    requires size > 0 && Connected(g, size, s, x) && Connected(g, size, x, y)
    ensures Connected(g, size, s, y)
  {
    var p :| IsPath(g, size, p) && p[0] == s && p[|p| - 1] == x;
    var q :| IsPath(g, size, q) && q[0] == x && q[|q| - 1] == y;
    var pq := p + q[1..];
    assert IsPath(g, size, pq) by {
      forall k | 0 <= k < |pq| - 1
        ensures Step(size, pq, k)
      {
        if k < |p| - 1 {
          assert Step(size, p, k);
          assert pq[k] == p[k] && pq[k + 1] == p[k + 1];
        } else {
          assert Step(size, q, k - |p| + 1);
          assert pq[k] == q[k - |p| + 1] && pq[k + 1] == q[k - |p| + 2];
        }
      }
    }
    assert pq[|pq| - 1] == y;
  }

  /** A closed set holding the first cell of a path holds the whole path. */
  lemma {:induction false} ClosedHoldsPath(g: seq<int>, size: nat, c: seq<nat>, p: seq<nat>, k: nat)
    requires size > 0 && Closed(g, size, c) && IsPath(g, size, p) && p[0] in c
    requires k < |p|
    ensures p[k] in c
  {
    if k > 0 {
      ClosedHoldsPath(g, size, c, p, k - 1);
      assert Step(size, p, k - 1);
    }
  }

  /** A closed set holding s holds every cell connected to s: a closed set is a union
      of whole components. */
  lemma ClosedHoldsComponent(g: seq<int>, size: nat, c: seq<nat>, s: nat, x: nat)
    requires size > 0 && Closed(g, size, c) && s in c && Connected(g, size, s, x)
    ensures x in c
  {
    var p :| IsPath(g, size, p) && p[0] == s && p[|p| - 1] == x;
    ClosedHoldsPath(g, size, c, p, |p| - 1);
  }

  /** Two distinct connected cells: the first one has an equal-rank neighbour. */
  lemma ConnectedDistinctHasNeighbor(g: seq<int>, size: nat, s: nat, x: nat)
    requires size > 0 && s < |g| && g[s] != 0 && Connected(g, size, s, x) && s != x
    ensures HasEqualNeighbor(g, size, s)
  {
    var p :| IsPath(g, size, p) && p[0] == s && p[|p| - 1] == x;
    assert |p| >= 2;
    assert Step(size, p, 0);
    assert IsAdjacent(size, p[0], p[1]) && g[p[1]] == g[s];
  }
}
