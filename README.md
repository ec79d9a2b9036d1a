# Merge Game Simulator — a verified model

The repository is a helper for a 5x5 merge puzzle. Each cell of the board
is empty or holds an integer tile. The player makes one move: "add" raises
one tile by 1, and "remove" empties one cell. Then a chain reaction runs:

- Every 4-connected group of three or more equal tiles (a *cluster*) is
  merged into a single tile of value `base + size - 2`.
- That tile goes on the acted-on cell on the first pass after an "add".
  Otherwise it goes on the cluster's bottommost, then leftmost cell.
- A merged tile that reaches the cap `max_value` disappears.
- After each pass the tiles fall to the bottom of their columns.

The loop repeats until no cluster is left. The number of passes is the
*fall count*. `find_best_action` tries every move and keeps the one with the
most falls.

Two files hold the engine. `main.py` simulates without an initial fall and
searches for the best move. `scan.py` lets the board fall once right after
the move, counts the merged cells, and turns the sliders' 0 into an empty
cell.

The model has these modules:

| file | module | what it holds |
|---|---|---|
| board.dfy | `Board` | cells, coordinates, actions, the board as a value (`Grid`) and as a 5x5 array updated in place |
| clusters.dfy | `Clusters` | `find_clusters` and its flood fill, as functions and as the in-place method over a `visited` array |
| merge.dfy | `Merge` | `merge_clusters` and its target rule |
| gravity.dfy | `Gravity` | `apply_gravity` |
| chain.dfy | `Chain` | the loop of `simulate`, for both variants |
| main_sim.dfy | `MainSimulator` | main.py's class: `simulate` and `find_best_action` |
| scan_sim.dfy | `ScanSimulator` | scan.py's class: `simulate` with the merged count; the 0-to-None input step |

Every in-place method is proved against a specification function on
`Grid`. The ghost function `Cells(board)` reads the array as a `Grid`.
Properties are proved about those functions:

- Clusters are exactly the maximal same-valued groups of at least 3.
- Gravity keeps each column's tiles and their order, packs them at the
  bottom, and is idempotent.
- Each pass removes at least two tiles per cluster, so the chain ends on a
  board without clusters after at most half as many passes as there are
  tiles.
- The search's comparisons pick exactly an independently defined winner.
- Normalising the input loses nothing.

Two points of the code shape the model:

- **"add" on an empty cell.** `board[r][c] += 1` on `None` raises at
  main.py:87 (and scan.py:105), so an "add" must address a tile
  (`ValidAction`).
- **The initial fall.** Only scan.py lets the board fall right after the
  move (scan.py:111). main.py goes straight into the loop, so the two
  variants are modelled separately.

## Model

| member | source | states |
|---|---|---|
| Board.ApplyAction | main.py:85-90 | "add" raises the addressed tile by one, "remove" empties the cell, and no other cell changes |
| Board.Act | scan.py:103-108 | the move, done in place on the working board, leaves exactly the board `ApplyAction` describes |
| Board.Copy | main.py:78 | the working board is a fresh array with the initial board's cells, so the initial board is never written |
| Gravity.ColumnTiles | main.py:71 | the list comprehension collects exactly the column's tiles, top to bottom |
| Gravity.FallColumn | main.py:70-74 | rewriting one column bottom-up leaves it packed (empties on top, tiles in order below) and every other column unchanged |
| Gravity.ApplyGravity | main.py:68-74 | the board after the in-place loop is `GravityOf` of the board before |
| Gravity.PackedKeepsTiles | main.py:71-74 | gravity keeps a column's tiles and their top-to-bottom order |
| Gravity.PackedIsPacked | main.py:73-74 | after gravity no empty cell lies below a tile |
| Gravity.PackedUnique | main.py:68-74 | a packed column with the same tiles in the same order is the only possible result of the fall |
| Gravity.GravitySettles | scan.py:90-95 | after gravity every column holds its old tiles in the same order, with no gap below a tile |
| Gravity.GravityKeepsOccupied | main.py:68-74 | gravity neither creates nor destroys a tile |
| Gravity.SettledIsFixed | main.py:68-74 | a board whose columns are all packed does not move |
| Gravity.GravityIdempotent | main.py:68-74 | applying gravity twice gives the same board as applying it once |
| Clusters.DfsFacts | main.py:22-32 | the fill from a cell marks exactly the cells it returns, which are distinct and all hold the value. It is empty exactly when the cell is off the board, already visited, or holds another value. Otherwise it starts at that cell, each later cell is next to an earlier one, and every same-valued neighbour of a returned cell is marked |
| Clusters.DfsDirsFacts | main.py:30-31 | the four recursive calls return distinct cells of the value, each next to the start or to an earlier one, and mark every same-valued neighbour in each direction tried |
| Clusters.DfsFromClosed | main.py:22-32 | from a visited set that no group leaks out of, the fill from an unvisited tile returns that tile's whole maximal same-valued 4-connected group, and leaves the visited set closed again |
| Clusters.ScanValid | main.py:34-39 | every kept cluster is a maximal same-valued group of at least 3 cells, and the kept clusters are pairwise disjoint |
| Clusters.ScanComplete | main.py:34-39 | every tile not in a kept cluster belongs to a maximal same-valued group of fewer than 3 cells |
| Clusters.ClustersSpec | main.py:17-40 | find_clusters returns disjoint maximal groups of at least 3 equal tiles, and every other tile lies in a smaller group |
| Clusters.Fill | main.py:22-32 | the recursive flood fill over the `visited` array returns the cells the functional fill returns, and marks the same cells |
| Clusters.FindClusters | main.py:17-40 | the method's clusters are exactly `ClustersOf` of the board |
| Merge.BottomLeft | main.py:55 | the key `(-row, col)` selects a cluster cell that is bottommost, then leftmost among the cluster |
| Merge.BottomLeftUnique | main.py:58 | any cluster cell that is bottommost-then-leftmost is the one `min` selects |
| Merge.Target | main.py:50-58 | after an "add", on pass 0, the target is the acted-on cell, even outside the cluster; otherwise it is the cluster's bottommost-then-leftmost cell; it is on the board whenever the cluster is |
| Merge.ClearAll | main.py:61-62 | exactly the cluster's cells become empty |
| Merge.MergeOneCells | main.py:44-66 | after one merge: the target holds `base + size - 2` when that is below the cap; every other cluster cell is empty, and so is the target when it is in the cluster and the cap is reached; every other cell is unchanged |
| Merge.MergeOneKeeps | main.py:44-66 | after one of find_clusters' clusters is merged, the remaining ones are still non-empty, without repeated cells, occupied and pairwise disjoint, so merge_clusters can go on with them (on pass 0 after an "add" an earlier merge may write its new value into a later cluster's cell, so their values need not stay equal) |
| Merge.OccupiedMergeOne | main.py:44-66 | one merge of k distinct occupied cells leaves at least k − 1 fewer tiles on the board |
| Merge.OccupiedMergeAll | main.py:44-66 | merging clusters of total size s leaves at least s minus the number of clusters fewer tiles |
| Merge.SumSizesAtLeast | main.py:38 | clusters of at least 3 cells have at least 3 cells per cluster in all |
| Merge.FoundAreMergeable | main.py:96-99 | what find_clusters returns meets what merge_clusters needs: the clusters are non-empty, in bounds, occupied and disjoint, each of at least 3 cells |
| Merge.MergePassShrinks | main.py:96-99 | one merge pass takes away at least two tiles per cluster |
| Merge.MergeCluster | main.py:45-66 | one cluster's merge, in place, gives the board `MergeOne` describes |
| Merge.MergeClusters | scan.py:69-88 | the in-place loop merges every cluster as `MergeAll` describes and returns the total number of merged cells |
| Chain.Pass | main.py:96-101 | a pass on a board with clusters leaves at least two tiles fewer per cluster |
| Chain.MergeAndFall | main.py:96-101 | one round of the loop reports whether there were clusters, leaves the board alone when there were none, and otherwise performs `Pass` and returns the merged count |
| Chain.SettleFallsIff | main.py:95-101 | the loop makes no pass exactly when the board has no cluster, and then merges nothing and stops on that board |
| Chain.SettleStep | main.py:95-101 | one pass adds one to the fall count, adds the clusters' sizes to the merged count, and strictly lowers the tile count |
| Chain.SettleBounds | main.py:95-101 | the loop ends on a board without clusters. Its fall count is at most half the tiles that disappear, its merged count is at least 3 per fall, and it is at most 1.5 per tile that disappears |
| Chain.SimulateMainBounds | main.py:76-107 | main.py's simulate ends on a board with no cluster, with at most one fall per two tiles after the move and at least 3 merged cells per fall |
| Chain.SimulateScanBounds | scan.py:97-122 | the same for scan.py's simulate, and its merged count is at most one and a half times the tiles that disappear |
| Chain.SimulateMainNoChain | main.py:93-98 | main.py's simulate reports 0 falls exactly when the move leaves no cluster; the outcome is then 0 merged cells and the board after the move |
| Chain.SimulateScanNoChain | scan.py:109-115 | scan.py's simulate reports 0 falls exactly when the board after the move and one fall has no cluster; the outcome is then 0 merged cells and that board |
| Chain.AddOnSettledAgrees | scan.py:111 | for an "add" on a board whose columns have all fallen, the extra fall of scan.py changes nothing and both simulators give the same outcome |
| MainSimulator.Descending | main.py:116 | `range(top, -1, -1)` has top + 1 entries; it starts at top, steps down by one, and ends at 0 |
| MainSimulator.Candidates | main.py:115-117 | every action the search tries addresses a tile on the board, and every tile contributes both its "add" and its "remove" |
| MainSimulator.MaxFall | main.py:120-129 | the largest fall count in the list bounds every entry and is reached (or is 0) |
| MainSimulator.LastAddWith | main.py:120 | finds an "add" with the given fall count exactly when the list has one, and no later "add" has that count (the `>=` tie-break keeps the last) |
| MainSimulator.FirstRemoveWith | main.py:129 | finds a "remove" with the given fall count exactly when the list has one, and no earlier "remove" has that count (the `>` rule keeps the first) |
| MainSimulator.PickIsWinner | main.py:111-134 | the comparisons pick exactly the winner: the maximum fall count, with the last "add" reaching it, else the first "remove" reaching it if it beats 0 |
| MainSimulator.WinnerSnoc | main.py:117-134 | one more candidate changes the winner exactly as one more comparison (`>=` for add, `>` for remove) does |
| MainSimulator.PickBounds | main.py:111-136 | max_fall_count is at least every candidate's fall count, and is the chosen action's own fall count; with no action chosen it is 0 |
| MainSimulator.PickSomeIffAdd | main.py:112-124 | an action is chosen exactly when some "add" is tried or some "remove" makes a fall |
| MainSimulator.ReadableRoundTrip | main.py:122-125 | the human-readable form counts rows and columns from 1 and gives back the action |
| MainSimulator.ColumnsAsWrittenOverrun | main.py:116 | the column range as written starts at 5, one past the last column |
| MainSimulator.ColumnsCorrected | main.py:116 | `range(BOARD_SIZE - 1, -1, -1)` visits each column exactly once, with no repeats |
| MainSimulator.SearchStep | main.py:117-134 | probing one cell adds its "add" and then its "remove" comparison to the search, and a cell without a tile adds none |
| MainSimulator.MergeGameSimulator.constructor | main.py:8-9 | the simulator holds the given board |
| MainSimulator.MergeGameSimulator.Simulate | main.py:76-107 | the fall count and final board are those of `SimulateMain` on the initial board, which stays unchanged |
| MainSimulator.MergeGameSimulator.ProbeCell | main.py:117-134 | on a tile, "add" is simulated and kept on `>=`, then "remove" is kept on `>`; the readable form follows the kept action |
| MainSimulator.MergeGameSimulator.FindBestAction | main.py:109-136 | the returned action and max_fall_count are both the comparisons' result and the independent `Winner` over all candidates, and the readable form matches the action |
| ScanSimulator.NormalisedSpec | scan.py:150-153 | after normalisation no tile holds 0; every other cell is unchanged; a 0 becomes empty |
| ScanSimulator.NormalisedFixedIff | scan.py:150-153 | normalisation leaves a board unchanged exactly when it has no 0 tile |
| ScanSimulator.NormalisedIdempotent | scan.py:150-153 | normalising twice is normalising once |
| ScanSimulator.NormalisedRoundTrip | scan.py:150-153 | showing empty cells as 0 again recovers the slider values |
| ScanSimulator.ZerosToNone | scan.py:150-153 | the in-place nested loop leaves exactly `Normalised` of the board |
| ScanSimulator.MergeGameSimulator.constructor | scan.py:37-38 | the simulator holds the given board |
| ScanSimulator.MergeGameSimulator.Simulate | scan.py:97-122 | the fall count, the total merged count and the final board are those of `SimulateScan` on the initial board, which stays unchanged |

## Left out

- The Streamlit page is not modelled: titles, sliders, tables, buttons, `display_board` and the `suppress_output` printing. It is presentation only.
- main2.py is not part of this model: it is an image-to-table text-recognition pipeline (perspective warp, cell splitting, digit recognition, CSV export), outside the engine. Neither main.py nor scan.py has a search by merged count or a two-move search.
- Python's dynamic typing is replaced by typed cells. A tile is an unbounded integer (`Option<int>`), as Python's `int` is. An action is exactly "add" or "remove", so the source's silent skip of any other action string has no counterpart.
- Board.ApplyAction: "add" on an empty cell is excluded by a precondition, because `None + 1` raises in the source.
- Board.ApplyAction: actions address cells on the board, so Python's negative-index wrap-around is not modelled. Every action the search builds is in range.
- Merge.MergeClusters: is modelled only for clusters as find_clusters returns them (non-empty, in bounds, occupied, pairwise disjoint). Its only caller, simulate, passes it find_clusters' result (main.py:96-99, scan.py:113-116).
- Merge.MergeClusters: main.py's merge_clusters returns nothing. The model's method returns the merged count for both variants, and main.py's simulate discards it.
- MainSimulator.MergeGameSimulator.FindBestAction: models the search with the column range corrected to columns 4 down to 0. As written, the search fails on its first probe (see Findings).
- MainSimulator.Readable: keeps the kind and the two 1-based coordinates, and drops the two constant label strings of the readable tuple.
- scan.py never imports `copy`, so its `copy.deepcopy` calls raise. The model treats them as the copy they are meant to be (`Board.Copy`).
- scan.py calls `find_best_action`, which its class does not define. The search is modelled for main.py only.
- The bounds of the `max_value` input widget are not modelled. `maxValue` is any integer.
- MainSimulator.MergeGameSimulator.ProbeCell and Chain.MergeAndFall are the loop bodies of `find_best_action` and `simulate`, written as methods of their own.

## Findings

| source | as written | input that shows it | evidently intended | confidence | as-written member | corrected member |
|---|---|---|---|---|---|---|
| main.py:116 | `range(BOARD_SIZE, -1, -1)` starts at column 5, one past the last column, so `self.board[r][5]` raises on the first probe | any board: row 0, column 5 is probed first | `range(BOARD_SIZE - 1, -1, -1)`: columns 4 down to 0 | not executed | MainSimulator.ColumnsAsWrittenOverrun | MainSimulator.ColumnsCorrected |
