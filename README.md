# Tile-merge puzzle: a verified model of the game logic

This project models the rules of the browser tile-merge puzzle `script.js`. The board is an
N×N grid stored row by row. Each cell is empty or holds a tile with a rank 1, 2, 3, …

- **Start.** A new game lays out a few starting caps of ranks 1 to 3, placed one at a
  time on random empty cells. Each cap avoids touching the caps already placed whenever an
  empty cell that touches none of them is left. It also deals a pending tile of rank 1 or 2.
- **Moves.** The player drags either the pending tile or, once the score has reached 3, a
  tile already on the board, and drops it on an empty cell. Moving a board tile costs a
  third of the score, rounded down.
- **Merges.** After each drop, every same-rank group of 4-connected tiles with at least two
  members collapses into one tile of the next rank. In the first pass after a drop, the collapse
  target is the cell just dropped on if that cell is in the group; otherwise, and in every
  later pass of the cascade, it is the group's lowest cell. Each
  group credits the score with the sum of its ranks, multiplied by (size − 1) for groups of
  three or more.
- **Cascades.** A pass may create new groups, so passes repeat until no group is left. The
  game is over when the board is full.

The model is in five modules:

- `Grid` (grid.dfy): board geometry (rows, columns, 4-adjacency, neighbour lists), the
  occupancy queries, and the same-rank paths that the component rules are stated with.
- `Spawn` (spawn.dfy): the starting caps (how many, which ranks, the shuffle), the cell each
  starting cap goes to, and the rank of the pending tile.
- `Sorting` (sort.dfy): the ascending sort that the merge finder applies to each group.
- `Merge` (merge.dfy): one merge pass, written as functions over a snapshot of the board.
  Its lemmas show that processing the disjoint groups one by one on the live board has the
  simultaneous meaning, and they state what the merge finder guarantees.
- `Game` (session.dfy): the class `Session`, which holds the board array, score, pending
  tile and drag state. Its methods are imperative versions of `init`, `generateNextCap`,
  `findConnectedGroup`, `findAllMerges`, `processMergeCycle` and the three pointer
  handlers. Their contracts tie the new board and score to the functions of `Merge`:
  a cascade returns, as ghost results, the board each pass ran on and the groups it found,
  and its contract says that these form a cascade (`Merge.IsCascade`) from the old board to
  the new one, crediting `Merge.CascadeCredit`. The starting layout is likewise returned
  in two ghost fields and tied to `Spawn`.

The model uses these representations:

- The source's `null` cell is `0`; ranks are positive.
- Every outcome of `Math.random()` is a `Draw` argument, a real in [0, 1).
- A pointer position is replaced by what it lands on (`Hit`: the pending slot, a cell, or
  nothing).
- `Math.round(total * 0.15)` is computed in integers as `(3 * total + 10) / 20`. This is
  exact because 0.15 × total is always a multiple of 0.05.

## Model

| member | source | states |
|---|---|---|
| Grid.AdjacentSymmetric | script.js:245-258 | isAdjacent is symmetric |
| Grid.AdjacentIrreflexive | script.js:245-258 | no cell is adjacent to itself |
| Grid.Neighbors | script.js:826-835 | getNeighbors gives at most four pairwise different indices, all on the board and all 4-adjacent to the cell, so there is no wrap-around across a row edge |
| Grid.AdjacentByIndex | script.js:245-258 | isAdjacent holds exactly for the cells one row up or down, and one column left or right without wrapping around a row edge |
| Grid.NeighborsIffAdjacent | script.js:826-835 | a cell is listed by getNeighbors exactly when isAdjacent holds for it, so the two geometry helpers agree |
| Grid.CheckGameOver | script.js:854-858 | the game is over exactly when no cell is empty |
| Grid.GetEmptyCellIndex | script.js:837-842 | the result is -1 exactly when the board is full; otherwise it is an empty cell with only occupied cells before it |
| Grid.ConnectedSymmetric | script.js:803-824 | same-rank reachability, the relation the flood fill explores, is symmetric |
| Grid.ConnectedTransitive | script.js:803-824 | same-rank reachability is transitive |
| Grid.ClosedHoldsComponent | script.js:803-824 | a cell set that is closed under equal-rank neighbours contains everything reachable from its members |
| Grid.ConnectedDistinctHasNeighbor | script.js:803-824 | a cell that reaches a different cell of its rank has an equal-rank 4-neighbour |
| Spawn.Scale | script.js:282 | Math.floor(Math.random() * len) is a valid index below len |
| Spawn.RoundFifteenPercent | script.js:19 | the integer form rounds 0.15 × total to the nearest integer, rounding halves up |
| Spawn.StartCount | script.js:14-20 | the starting count is between 1 and size² − 1, with exactly 3, 5 and 10 for sizes 3, 4 and 5, and 1 for size 1 |
| Spawn.CyclicRanks | script.js:22-30 | the k-th dealt cap has rank k mod 3 + 1 |
| Spawn.RankCounts | script.js:22-30 | rank r occurs (count + 3 − r) / 3 times in the cyclic deal, so the 1s, 2s and 3s differ by at most one, in that order |
| Spawn.ComputeStartingCaps | script.js:13-39 | returns StartCount(size) caps, all of rank 1 to 3, which are a permutation of the cyclic deal |
| Spawn.SwapSameMultiset | script.js:33-36 | one Fisher–Yates exchange keeps the same caps |
| Spawn.NextCapValue | script.js:848-852 | the dealt rank is 1 when the draw is below 0.8, and 2 otherwise |
| Spawn.OccupiedIndices | script.js:264-266 | lists exactly the occupied cells |
| Spawn.NonAdjacentCells | script.js:267-271 | keeps exactly the candidate cells that touch no occupied cell |
| Spawn.PickCell | script.js:273-283 | the drawn cell is an empty cell; it touches no occupied cell whenever some empty cell does not |
| Spawn.IndexOf | script.js:285 | indexOf finds the first position of the cell |
| Spawn.PickCellSpreads | script.js:260-287 | the layout rule holds for the drawn cell whatever order the occupied cells are listed in |
| Spawn.SpreadExtend | script.js:260-288 | placing one more cap by the rule keeps the rule for the whole layout |
| Sorting.Insert | script.js:796 | inserting into an ordered list keeps it ordered and adds exactly that element |
| Sorting.Sort | script.js:796 | the numeric sort gives an ordered permutation of its input |
| Sorting.SortDistinct | script.js:796 | sorting distinct indices gives a strictly ascending list with the same members |
| Sorting.DistinctRemove | script.js:285-286 | splicing out one entry of a duplicate-free list removes exactly that entry |
| Merge.GroupIsComponent | script.js:790-824 | each merge group is exactly the same-rank component of its first cell |
| Merge.InGroupIffEqualNeighbor | script.js:790-801 | a cell is in some merge group exactly when it is occupied and has an equal-rank 4-neighbour (both directions) |
| Merge.NoGroupsMeansStable | script.js:779-787 | when the merge finder returns no group, no two 4-adjacent occupied cells hold the same rank |
| Merge.MergeListWellFormed | script.js:790-801 | the groups of a merge list are disjoint, on the board, of one positive rank each, and have at least two cells |
| Merge.CollapseTarget | script.js:751-754 | the collapse target is the drop cell when the group holds it, and otherwise the group's first (lowest) cell |
| Merge.MergeGroupOccupied | script.js:748-775 | collapsing one group empties every member except the collapse target, which stays occupied, and leaves every other cell's occupancy alone |
| Merge.GroupCreditRule | script.js:736-746 | a group of len cells of rank r credits r·len·(len − 1) when len > 2 and r·len otherwise |
| Merge.SumOfEqualRanks | script.js:736-740 | summing the ranks of a group of len cells of rank r gives r·len |
| Merge.PassAnchor | script.js:778 | the drop cell anchors the first pass only; every re-run passes -1 |
| Merge.CascadeStep | script.js:731-788 | a further non-empty pass on the current board extends the cascade record, and its credit is added to the cascade's credit |
| Merge.CascadeEnd | script.js:779-787 | a pass that finds no group closes the cascade without changing its credit |
| Merge.CascadeRound | script.js:731-788 | one round of a running cascade never lowers the score and never fills a cell; a pass with groups extends the record and strictly shrinks the occupied cells, and a pass without groups leaves a stable board and closes the cascade |
| Merge.CascadeBound | script.js:731-788 | after n non-empty passes at least n cells have been emptied, no cell has been filled and no rank is negative, so a cascade has at most as many passes that find groups as the board had occupied cells |
| Merge.CascadeCreditFrame | script.js:735-746 | a cascade's credit depends only on the boards its passes ran on |
| Merge.PassAt | script.js:735-776 | after a pass, each group's target holds its snapshot rank + 1, its other cells are empty, and cells outside every group are unchanged |
| Merge.PassCreditIsSnapshotCredit | script.js:736-746 | the score a pass adds is, for each group of len cells of rank r, r·len·(len − 1) when len > 2 and r·len otherwise, all computed on the board as it stood when the pass began |
| Merge.RankCreditPositive | script.js:742-746 | each group credit is positive, and at least 2 for a pair or more |
| Merge.PassCreditPositive | script.js:735-746 | a pass never lowers the score, and a pass that merges something raises it |
| Merge.PassShrinks | script.js:731-776 | a pass never fills an empty cell and never writes a negative rank; a pass with a group strictly shrinks the set of occupied cells |
| Merge.PassPrefixStep | script.js:735-776 | processing one more group extends the pass, for both the board and the score |
| Merge.SortedComponentIsGroup | script.js:795-796 | a closed, connected, duplicate-free same-rank set of two or more cells becomes a merge group once sorted |
| Merge.ScanStep | script.js:793-799 | visiting the component of an unvisited occupied cell, and keeping it when it has two or more cells, keeps the scan invariant: disjoint merge groups made of visited cells that cover every visited cell with an equal-rank neighbour |
| Game.MoveCost | script.js:653-655 | moving a tile costs floor(score / 3), at least 1, and leaves a score of at least 2 |
| Game.MarkVisited | script.js:798 | adds exactly the group's cells to the visited set |
| Game.Session.Init | script.js:220-290 | a fresh board of size² cells, score 0, no drag and no cascade, and a dealt pending tile. StartCount(size) distinct cells hold the starting caps, which are a permutation of the cyclic deal; each cell obeys the layout rule against the cells placed before it, and every other cell is empty |
| Game.Session.PlaceStartingCaps | script.js:241-288 | each starting cap goes to a distinct, previously empty cell, and every other cell stays empty; each cap touches no earlier cap whenever some empty cell touching none existed |
| Game.Session.PlaceCap | script.js:260-287 | one layout step writes the cap on the drawn cell, removes that cell from the empty list, and keeps the layout rule |
| Game.Session.GenerateNextCap | script.js:848-852 | deals a pending tile only when there is none, and keeps an existing one |
| Game.Session.FindConnectedGroup | script.js:803-824 | an empty start gives an empty group. Otherwise the group starts with the start cell, lists each cell once, holds only cells of the start's rank reachable from it, and contains every equal-rank neighbour of its members |
| Game.Session.VisitFront | script.js:809-822 | one round of the search moves the queue's front into the group and keeps the search invariant; the search makes progress |
| Game.Session.EnqueueNeighbors | script.js:812-821 | every unseen equal-rank neighbour of the current cell is queued once and marked seen, with a path from the start |
| Game.Session.FindAllMerges | script.js:790-801 | the result lists disjoint, ascending, same-rank components of two or more cells that together cover every occupied cell with an equal-rank neighbour |
| Game.Session.CollapseGroup | script.js:735-776 | one group step credits GroupCredit and leaves the board as MergeGroup says |
| Game.Session.MergePass | script.js:731-776 | a pass leaves the board and score as PassResult and PassCredit say for a merge list of the old board, and keeps the session valid |
| Game.Session.RunCascade | script.js:731-788 | the passes run, anchored on the given cell in the first pass only, until one finds no group. The recorded boards and merge lists form a cascade from the old board to the new, stable one, and the score grows by exactly the cascade's credit |
| Game.Session.CascadePass | script.js:731-788 | one merge pass of the cascade loop, recorded as the next step of the cascade with its credit when it finds groups; when it finds none, the board is unchanged and stable and the cascade is complete |
| Game.Session.ProcessMergeCycle | script.js:731-788 | the board and score are those of a cascade anchored on userActionIndex (as RunCascade states); the score never fell and no empty cell was filled; the pending tile is dealt if missing; the cascade ends, and the result says exactly whether the board is full |
| Game.Session.InteractionStart | script.js:624-668 | pressing the pending slot picks up the pending tile even during a cascade. A board tile is picked up exactly when there is no cascade, the cell is occupied and the score is at least 3, and then at MoveCost(score). Anything else changes nothing |
| Game.Session.InteractionMove | script.js:670-687 | during a drag, the drop target is the cell under the pointer exactly when that cell is empty and is not the drag's source, and -1 otherwise |
| Game.Session.Drop | script.js:693-716 | the price is paid, and a board move leaves a score of at least 2. The target receives the dragged rank. A board source is emptied; a pending drop is free and deals a new pending tile. A cascade starts |
| Game.Session.InteractionEnd | script.js:689-728 | a release without a target leaves board, score and pending tile unchanged. A drop puts the dragged rank on the drop target and empties a board source, pays the price, and re-deals the pending tile when it was the one dropped. It then runs a cascade anchored on the drop target from that board, adding its credit, to a stable board, and reports a full board. The drag always ends |

## Left out

- Rendering, animations, particles, shockwaves, screen shake, sounds (including the random
  choice of pop sound), the tutorial finger and the score display are not modelled. They
  are output only.
- The pixel-to-cell mapping (`getInteractionPos`, `getCellIndexFromPos`,
  `getNextCapCoords`, `getCellCoords`, `resizeCanvas`) is not modelled. A pointer position
  is given directly as a `Hit`.
- The board-size selection dialog, the game-over overlay and the restart button are not
  modelled. `InteractionEnd` only returns whether the board is full.
- The 400 ms and 300 ms `setTimeout` delays are not modelled. As in the source, the drag
  record is reset before the cascade runs; the difference is that the model runs the whole
  cascade synchronously inside the handler. A pending-tile drop made while an earlier
  cascade is still pending is therefore not interleaved with that cascade.
- `Math.random()` is not modelled. Its outcomes are arguments, and nothing is proved about
  their distribution, such as the uniformity of the shuffle.
- `Game.Session.Init` does not model the reset of the cosmetic fields (`shake*`,
  `particles`, `animations`, `isTutorial`) or the start of the render loop.
