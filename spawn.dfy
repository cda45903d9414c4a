/** Where new tiles come from: the starting caps of a fresh board (how many, which ranks,
    shuffled), the cell each starting cap is put on, and the rank of the pending tile.
    Each outcome of Math.random() is a `Draw`, a real in [0, 1), supplied by the caller. */
module Spawn {
  import opened Grid

  /** One outcome of Math.random(). */
  type Draw = r: real | 0.0 <= r < 1.0

  /** Math.floor(Math.random() * len): a uniformly drawn index below len. */
  function Scale(r: Draw, len: nat): (k: nat)
    requires len > 0
    ensures k < len
  {
    var x := r * len as real;
    assert 0.0 <= x < len as real by {
      assert x == r * len as real;
      assert len as real - x == (1.0 - r) * len as real;
    }
    x.Floor
  }

  /** START_COUNT_BY_SIZE: the explicit starting counts for the three offered board sizes. */
  const START_COUNT_BY_SIZE: map<nat, nat> := map[3 := 3, 4 := 5, 5 := 10]

  /** The three lowest ranks, in the order they are dealt. */
  const TYPES: seq<nat> := [1, 2, 3]

  function Min(a: int, b: int): int { if a < b then a else b }

  function Max(a: int, b: int): int { if a < b then b else a }

  /** Math.round(total * 0.15) in integers: 0.15 * total is a multiple of 0.05, so
      rounding half up is floor((3 * total + 10) / 20). */
  function RoundFifteenPercent(total: nat): (r: nat)
    ensures 20 * r <= 3 * total + 10 < 20 * r + 20
    ensures r as real - 0.5 <= 0.15 * total as real < r as real + 0.5
  {
    (3 * total + 10) / 20
  }

  /** The fill count of computeStartingCaps: the table value for sizes 3, 4 and 5,
      otherwise about 15% of the cells but at least 2, then clamped to [1, total - 1]. */
  function StartCount(size: nat): (count: nat)
    ensures 1 <= count
    ensures size >= 2 ==> count <= size * size - 1
    ensures size == 1 ==> count == 1
    ensures size == 3 ==> count == 3
    ensures size == 4 ==> count == 5
    ensures size == 5 ==> count == 10
  {
    var total := size * size;
    var fill :=
      if size in START_COUNT_BY_SIZE then START_COUNT_BY_SIZE[size]
      else Min(Max(2, RoundFifteenPercent(total)), total - 1);
    Max(1, Min(fill, total - 1))
  }

  /** The unshuffled caps: ranks 1, 2, 3, 1, 2, 3, ... */
  function CyclicRanks(count: nat): (caps: seq<nat>)
    ensures |caps| == count
    ensures forall k :: 0 <= k < count ==> caps[k] == k % 3 + 1
  {
    seq(count, i requires 0 <= i => TYPES[i % |TYPES|])
  }

  /** The cyclic deal spreads the ranks as evenly as possible: rank r appears
      ceil((count - r + 1) / 3) times, so the counts of 1s, 2s and 3s differ by at most one,
      in that order. */
  lemma {:induction false} RankCounts(count: nat, r: nat)
    requires 1 <= r <= 3
    ensures multiset(CyclicRanks(count))[r] == (count + 3 - r) / 3
  {
    if count > 0 {
      RankCounts(count - 1, r);
      CyclicRanksSnoc(count);
      var v: nat := (count - 1) % 3 + 1;
      assert multiset(CyclicRanks(count)) == multiset(CyclicRanks(count - 1)) + multiset{v};
      assert multiset(CyclicRanks(count))[r] == multiset(CyclicRanks(count - 1))[r] + (if v == r then 1 else 0);
      ThirdStep(count - 1, r);
    }
  }

  /** One more dealt cap raises the count of its own rank by one. */
  lemma ThirdStep(c: nat, r: nat)
    requires 1 <= r <= 3
    ensures (c + 4 - r) / 3 == (c + 3 - r) / 3 + (if c % 3 + 1 == r then 1 else 0)
  {
    var q, m := c / 3, c % 3;
    assert c == 3 * q + m;
  }

  lemma CyclicRanksSnoc(count: nat)
    requires count > 0
    ensures CyclicRanks(count) == CyclicRanks(count - 1) + [(count - 1) % 3 + 1]
  {
  }

  /** computeStartingCaps: deals StartCount(size) caps cyclically, then shuffles them with a
      Fisher-Yates pass that swaps position i with a drawn position j <= i. */
  method ComputeStartingCaps(size: nat, shuffle: seq<Draw>) returns (caps: seq<nat>)
    requires |shuffle| >= StartCount(size) - 1
    ensures |caps| == StartCount(size)
    ensures multiset(caps) == multiset(CyclicRanks(StartCount(size)))
    ensures forall k :: 0 <= k < |caps| ==> 1 <= caps[k] <= 3
  {
    var fillCount := StartCount(size);
    caps := [];
    var typeIndex := 0;
    for i := 0 to fillCount
      invariant typeIndex == i
      invariant caps == CyclicRanks(i)
    {
      caps := caps + [TYPES[typeIndex % |TYPES|]];
      typeIndex := typeIndex + 1;
      CyclicRanksSnoc(i + 1);
    }
    var i := |caps| - 1;
    while i > 0
      invariant 0 <= i + 1 <= |caps| == fillCount
      invariant multiset(caps) == multiset(CyclicRanks(fillCount))
      invariant forall k :: 0 <= k < |caps| ==> 1 <= caps[k] <= 3
    {
      var j := Scale(shuffle[fillCount - 1 - i], i + 1);
      var swapped := caps[i := caps[j]][j := caps[i]];
      SwapSameMultiset(caps, swapped, i, j);
      caps := swapped;
      i := i - 1;
    }
  }

  /** Exchanging two entries keeps the same entries. */
  lemma SwapSameMultiset(s: seq<nat>, t: seq<nat>, i: nat, j: nat)
    requires i < |s| && j < |s| && t == s[i := s[j]][j := s[i]]
    ensures multiset(t) == multiset(s)
    ensures forall k :: 0 <= k < |t| ==> t[k] in s
  {
    var u := s[i := s[j]];
    assert multiset(u) == multiset(s) - multiset{s[i]} + multiset{s[j]};
    assert multiset(t) == multiset(u) - multiset{u[j]} + multiset{s[i]};
  }

  /** The rank generateNextCap deals: 1 with probability 0.8, otherwise 2. */
  function NextCapValue(r: Draw): (rank: nat)
    ensures rank == 1 || rank == 2
    ensures rank == 1 <==> r < 0.8
  {
    if r < 0.8 then 1 else 2
  }

  // ---------------------------------------------------------------------------
  // Placing the starting caps
  // ---------------------------------------------------------------------------

  /** The cell e is 4-adjacent to one of the occupied cells. */
  predicate Touches(size: nat, e: nat, occupied: seq<nat>)
    requires size > 0
  {
    exists o :: o in occupied && IsAdjacent(size, e, o)
  }

  /** The occupied indices of a board, in ascending order (grid.map(...).filter(...)). */
  function OccupiedIndices(g: seq<int>): (occ: seq<nat>)
    ensures forall i: nat :: i in occ <==> i < |g| && g[i] != 0
  {
    if g == [] then []
    else
      var n := |g| - 1;
      OccupiedIndices(g[..n]) + (if g[n] != 0 then [n] else [])
  }

  /** nonAdjacentCells: the cells that touch no occupied cell, in their original order. */
  function NonAdjacentCells(size: nat, cells: seq<nat>, occupied: seq<nat>): (r: seq<nat>)
    requires size > 0
    ensures forall e :: e in r <==> e in cells && !Touches(size, e, occupied)
  {
    if cells == [] then []
    else
      var rest := NonAdjacentCells(size, cells[1..], occupied);
      assert forall e :: e in cells <==> e == cells[0] || e in cells[1..];
      if Touches(size, cells[0], occupied) then rest else [cells[0]] + rest
  }

  /** The cell a starting cap goes to: drawn among the empty cells that touch no occupied
      cell when there is one, otherwise among all empty cells. */
  function PickCell(size: nat, emptyCells: seq<nat>, occupied: seq<nat>, r: Draw): (cell: nat)
    requires size > 0 && |emptyCells| > 0
    ensures cell in emptyCells
    ensures (exists e :: e in emptyCells && !Touches(size, e, occupied)) ==> !Touches(size, cell, occupied)
  {
    var nonAdjacent := NonAdjacentCells(size, emptyCells, occupied);
    var available := if |nonAdjacent| > 0 then nonAdjacent else emptyCells;
    assert (exists e :: e in emptyCells && !Touches(size, e, occupied)) ==> |nonAdjacent| > 0;
    available[Scale(r, |available|)]
  }

  /** Touching depends only on which cells are occupied, not on how they are listed. */
  lemma TouchesSameMembers(size: nat, e: nat, a: seq<nat>, b: seq<nat>)
    requires size > 0 && forall x :: x in a <==> x in b
    ensures Touches(size, e, a) <==> Touches(size, e, b)
  {
  }

  /** The choice of `cell` after the caps on `placed` obey the layout rule: if some cell of
      the board is still empty and touches none of them, the chosen cell touches none either. */
  ghost predicate SpreadChoice(size: nat, placed: seq<nat>, cell: nat)
    requires size > 0
  {
    (exists e: nat :: e < size * size && e !in placed && !Touches(size, e, placed)) ==>
      !Touches(size, cell, placed)
  }

  /** Every cap of the layout `cells`, in the order placed, obeyed the layout rule with
      respect to the caps placed before it. */
  ghost predicate Spread(size: nat, cells: seq<nat>)
    requires size > 0
  {
    forall j :: 0 <= j < |cells| ==> SpreadChoice(size, cells[..j], cells[j])
  }

  /** emptyCells.indexOf(cell). */
  function IndexOf(s: seq<nat>, x: nat): (k: nat)
    requires x in s
    ensures k < |s| && s[k] == x
    ensures forall j :: 0 <= j < k ==> s[j] != x
  {
    if s[0] == x then 0 else 1 + IndexOf(s[1..], x)
  }

  /** The cell PickCell draws obeys the layout rule with respect to the caps already
      placed, whatever order the occupied cells are listed in. */
  lemma PickCellSpreads(size: nat, emptyCells: seq<nat>, occupied: seq<nat>, placed: seq<nat>, r: Draw)
    requires size > 0 && |emptyCells| > 0
    requires forall x :: x in occupied <==> x in placed
    requires forall e: nat :: e in emptyCells <==> e < size * size && e !in placed
    ensures SpreadChoice(size, placed, PickCell(size, emptyCells, occupied, r))
  {
    forall e: nat
      ensures Touches(size, e, occupied) <==> Touches(size, e, placed)
    {
      TouchesSameMembers(size, e, occupied, placed);
    }
  }

  /** Placing one more cap by the layout rule extends a layout that obeys the rule. */
  lemma SpreadExtend(size: nat, placed: seq<nat>, cell: nat)
    requires size > 0
    requires Spread(size, placed) && SpreadChoice(size, placed, cell)
    ensures Spread(size, placed + [cell])
  {
    var next := placed + [cell];
    assert next[..|placed|] == placed;
    forall j | 0 <= j < |placed|
      ensures next[..j] == placed[..j] && next[j] == placed[j]
    {
    }
  }
}
