# npuzzle in Dafny

A verified model of the sliding-tile (n²−1) puzzle solver: the board of
`board.py` (grid coordinates, the tile snapshot, the blank's legal moves and
the swap that plays one) and the solver of `solver.py` (the Manhattan-distance
heuristics, the annealing temperature, iterative-deepening depth-first search,
the best-first "beamlike" search with its depth-6 lookahead, and the two ways
of building a start board).

Layout, one module per file:

| file | module | models |
|---|---|---|
| `wrappers.dfy` | `Wrappers` | `Option`, standing for Python's `None` |
| `coordinate.dfy` | `Coordinates` | `NPuzzleCoordinate` and `mdist` |
| `board.dfy` | `Puzzle` | `NPuzzleBoard`: constructor, `positionof`, `iscomplete`, `possibleswaps`, `swap` |
| `heuristics.dfy` | `Heuristics` | `mdist_entropy`, `avgmdist_entropy` (integer totals), `temperature` |
| `iddfs.dfy` | `DepthFirst` | `iddfs` and its inner `dfs` |
| `beam.dfy` | `Beam` | `beamlike` and its inner `dfs_lookahead` |
| `shuffle.dfy` | `Setup` | `shufflestart`, `definestart` |

Modelling choices:

- A board is never changed after it is built, so `Puzzle.Board` is a datatype
  value `Board(n, tiles, parent, depth)`. Its tile sequence stands for its hash.
- Most loops of the source are methods proved equal to pure functions:
  - the constructor's copy loop;
  - the index scans of `positionof` and `iscomplete`;
  - the append loop of `possibleswaps`;
  - the copy-and-exchange of `swap`, done on an array;
  - the summing loops of the heuristics;
  - the outer loop of `iddfs`;
  - one turn of the `while` loop of `beamlike` (`Beam.BeamTurn`) and its inner `for` loop.
- Two loops are proved against the properties the source relies on, not
  equated to a function:
  - the `while` loop of `beamlike` (`Beam.Beamlike`) keeps the dictionaries'
    invariants and terminates;
  - the shuffle loop (`Setup.ShuffleStart`) returns a board on which the
    returned moves replay to the goal.
- The recursive `dfs` and `dfs_lookahead` are functions. The lemmas state
  their properties against those functions.
- The module constant `N = 5` of the heuristics and of `shufflestart` is a
  parameter `N`. The heuristics require `b.n == N`.
- The heuristic `hfunc` of `beamlike` is a parameter `h: Board -> int`.
- `random.random()` becomes an oracle `draws: nat -> real`. It is read once
  for each child that is not yet explored.
- `random.randint(0, len(swaps) - 1)` becomes an oracle `pick: nat -> nat`,
  taken modulo the number of moves. Every property holds for all oracle values.
- `beamlike` computes `temperature(ticks, annealing=10000)` inside its inner
  loop. `ticks` does not change within that loop, so the model computes the
  threshold once per parent and passes it in (`thresh`).
- `beamlike` terminates because `explored` can only grow inside the finite set
  of tile sequences of length n² over `[0, n²)`. Between two growths of
  `explored`, `entropies` shrinks.

What the search code does, as modelled:

- `beamlike` prunes nothing: every entry of `entropies` stays until it is
  taken, and each turn takes a least-cost one.
- `dfs_lookahead` is called with depths 1 and 6 (`Beam.LookaheadDepth`).
- The annealing constant is 10000 (`Beam.Annealing`).
- Running out of entries is not reported apart from success. When `entropies`
  empties, `beamlike` returns the last board it took, which may be incomplete.
  `Beam.Beamlike` states that the returned board is complete or `entropies`
  is empty, and that the board is one of the explored boards.
- `avgmdist_entropy` counts a tile once the running total is positive. The
  model keeps that counter and proves how it differs from the per-tile count
  (see Findings).

## Model

| member | source | states |
|---|---|---|
| Coordinates.CoordinateOf | board.py:87-91 | the coordinate of index `ix` keeps `n` and `ix`, has `row * n + col == ix`, `0 <= col < n` and `row >= 0` |
| Coordinates.MDist | board.py:96-100 | Manhattan distance is never negative and is 0 exactly when rows and columns coincide |
| Coordinates.MDistSymmetric | board.py:96-100 | the distance from `a` to `b` equals the distance from `b` to `a` |
| Coordinates.SameCellSameIndex | board.py:87-91 | two indices of one grid share a cell exactly when they are equal |
| Coordinates.UnitDistanceOffsets | board.py:56-61 | a cell at distance 1 from `z` has index `z - 1`, `z + 1`, `z - n` or `z + n`: the four offsets cover every neighbour |
| Coordinates.VerticalNeighbours | board.py:56-61 | index `i` and index `i + n` are at distance 1 |
| Puzzle.NewBoard | board.py:11-21 | the constructor copies a non-empty `preconfig` exactly; an empty one gives `[0, 1, ..., n*n-1]`, which is not complete for `n >= 2`; `n`, `parent` and `depth` are stored as given |
| Puzzle.PositionFrom | board.py:38-42 | the scan from index `i` returns None exactly when no later cell holds `v`, and otherwise the coordinate of the first such cell |
| Puzzle.PositionOf | board.py:38-42 | `positionof` returns None exactly when `v` is absent, and otherwise the coordinate of the first cell holding `v` |
| Puzzle.FindPosition | board.py:38-42 | the loop with early return computes `PositionOf` |
| Puzzle.Blank | board.py:57 | the blank's coordinate is that of a cell holding 0 |
| Puzzle.PositionOfAt | board.py:38-42 | on distinct tiles, the position of the value at index `k` is `k` |
| Puzzle.IsComplete | board.py:44-49 | the goal test: every cell but the last holds its index plus one; `CheckComplete` computes it and `CompleteIsGoal` characterises it on a permutation |
| Puzzle.CheckComplete | board.py:44-49 | the loop returns true exactly when every cell but the last holds its index plus one |
| Puzzle.CompleteIsGoal | board.py:44-49 | on a permutation, complete holds exactly when the tiles are `[1, ..., n*n-1, 0]`: the blank is forced into the last cell |
| Puzzle.NeighbourValues | board.py:58-62 | the filtered tiles are at most as many as the offsets tried |
| Puzzle.NeighbourValuesSound | board.py:58-62 | every tile kept sits at an in-bounds index, reached by one of the offsets, at distance 1 from the blank |
| Puzzle.NeighbourValuesComplete | board.py:58-62 | every in-bounds index at distance 1 that one of the offsets reaches has its tile kept |
| Puzzle.NeighbourValuesMembers | board.py:58-62 | both directions together: a tile is kept exactly when an offset reaches it at distance 1 |
| Puzzle.NeighbourValuesDistinct | board.py:58-62 | on distinct tiles, offsets that differ where they pass the checks give distinct kept tiles |
| Puzzle.PossibleSwaps | board.py:51-64 | `possibleswaps` returns at most 4 values, each a tile of the board at an in-bounds index at distance 1 from the blank |
| Puzzle.CollectPossibleSwaps | board.py:51-64 | the append loop over the offsets `[-1, 1, -N, N]` computes `PossibleSwaps` |
| Puzzle.PossibleSwapsComplete | board.py:56-62 | every in-bounds cell at distance 1 from the blank has its tile in `possibleswaps` |
| Puzzle.PossibleSwapsDistinct | board.py:51-64 | on a permutation, the values offered are pairwise distinct |
| Puzzle.PossibleSwapsNonEmpty | board.py:56-62 | on a grid of side 2 or more, at least one move is offered |
| Puzzle.Swap | board.py:66-83 | `swap(0)` is None; a successful swap has this board as parent, one more move of depth, the same `n`, and as many tiles, still holding 0 and `v` |
| Puzzle.ApplySwap | board.py:66-83 | copying the tiles to an array and exchanging two cells of the copy computes `Swap` |
| Puzzle.Exchanged | board.py:75-78 | the copy with cells `i` and `j` exchanged has the same length, holds `t[j]` at `i` and `t[i]` at `j`, and keeps every other cell |
| Puzzle.ExchangedPermutation | board.py:75-78 | exchanging two cells of a permutation gives a permutation |
| Puzzle.SwapExchanges | board.py:70-80 | on a permutation a successful swap gives a permutation in which the blank and `v` trade places and every other cell is unchanged |
| Puzzle.SwapIffPossible | board.py:51-83 | `swap(v)` succeeds exactly when `v` is among `possibleswaps()` |
| Puzzle.ExchangedTwice | board.py:75-78 | exchanging the same two cells twice restores the tiles |
| Puzzle.SwapRoundTrip | board.py:66-80 | after a successful `swap(v)`, swapping `v` again succeeds and restores the original tiles |
| Puzzle.Child | solver.py:107-108 | the board a search reaches by a possible move is a valid board of the same size, linked to its parent by one legal move |
| Puzzle.SwapTilesOnly | board.py:66-80 | whether swap succeeds, and the tiles it yields, depend only on `n` and the tiles |
| Heuristics.TileDistance | solver.py:70-73 | a tile's distance from its goal cell is never negative |
| Heuristics.TileDistanceZero | solver.py:70-73 | a tile is at distance 0 exactly when its first cell is index `v - 1` |
| Heuristics.ManhattanSum | solver.py:63-75 | the summed distance is never negative |
| Heuristics.ManhattanSumZero | solver.py:63-75 | the sum is 0 exactly when every tile it covers is at distance 0 |
| Heuristics.MdistEntropy | solver.py:63-75 | the loop of `mdist_entropy` returns the summed distance of tiles `1 .. N*N-1` |
| Heuristics.ValidHasTiles | solver.py:69-71 | on a permutation every `positionof(i)` of the loop finds its tile |
| Heuristics.EntropyZeroIffComplete | solver.py:63-75 | on a permutation, `mdist_entropy` is 0 exactly when the board is complete |
| Heuristics.AllHomeIsComplete | solver.py:63-75 | a permutation with every tile at distance 0 is complete |
| Heuristics.CompleteIsAllHome | solver.py:63-75 | on a complete permutation every tile is at distance 0 |
| Heuristics.RunningMisplaced | solver.py:82-88 | the counter as written grows at most by one per tile |
| Heuristics.RunningMisplacedZero | solver.py:82-88 | the counter as written is 0 exactly when the total distance is 0 |
| Heuristics.AvgMdistTotals | solver.py:77-88 | the loop of `avgmdist_entropy` ends with the summed distance and the counter as written |
| Heuristics.SolvedBoardHasNoMisplaced | solver.py:86-90 | on a complete permutation the counter is 0, so the division at solver.py:90 divides by zero |
| Heuristics.MisplacedCount | solver.py:77-78 | the per-tile count of misplaced tiles is at most one per tile |
| Heuristics.MisplacedCountBounds | solver.py:77-78 | the per-tile count is at most the total distance, and 0 exactly when the total distance is 0 |
| Heuristics.RunningMisplacedOvercounts | solver.py:86-88 | the counter as written never counts fewer tiles than the per-tile count |
| Heuristics.RunningMisplacedAfterFirst | solver.py:86-88 | once tile 1 is away from its goal cell, the counter as written counts every tile |
| Heuristics.MisplacedCountSkipsHome | solver.py:77-78 | a tile at its goal cell lowers the per-tile count below one per tile |
| Heuristics.RunningMisplacedOvercountsStrictly | solver.py:86-88 | with tile 1 misplaced and another tile at home, the counter as written reaches `N*N-1` and exceeds the per-tile count |
| Heuristics.TileDistanceAt | solver.py:70-73 | on distinct tiles, a tile's distance is taken from the cell where it sits |
| Heuristics.RunningMisplacedCounterexample | solver.py:86-88 | on the 2 x 2 board `[2, 1, 3, 0]` the counter as written reaches 3 while fewer than 3 tiles are misplaced |
| Heuristics.Temperature | solver.py:53-57 | `x / (annealing + x)` lies in `[0, 1)` for `x >= 0` and `annealing > 0` |
| Heuristics.TemperatureMonotone | solver.py:53-57 | the temperature does not decrease as `x` grows |
| DepthFirst.SolvesFromShorter | solver.py:107-111 | a solution grown from `path + [next]` is one grown from `path` when `next` is one legal move from the end of `path` |
| DepthFirst.Dfs | solver.py:99-113 | a path found by `dfs` extends its input by at most `maxdepth - cur` boards |
| DepthFirst.DfsChildren | solver.py:107-113 | a path found by the loop over moves is strictly longer than its input and within the depth bound |
| DepthFirst.DfsSound | solver.py:99-113 | a path `dfs` returns extends its input by legal moves and ends on a complete board |
| DepthFirst.DfsChildrenSound | solver.py:107-113 | the same for the loop over the possible moves |
| DepthFirst.DfsChildrenFinds | solver.py:107-113 | the loop succeeds as soon as the search below one of its moves succeeds |
| DepthFirst.DfsFindsReachableGoal | solver.py:99-113 | `dfs` misses nothing within its depth: when some moves solve the last board in at most `maxdepth - cur` moves, `dfs` returns a path |
| DepthFirst.FirstSolvingMove | solver.py:107-109 | on an incomplete board the first of the solving moves is possible, within depth, and leads to a board the rest of the moves solve |
| DepthFirst.DfsFindsThroughChild | solver.py:105-111 | on an incomplete board below the limit, `dfs` succeeds once its search below one possible move does |
| DepthFirst.FirstMove | solver.py:107-108 | a legal path starts with a possible move whose swap is the second board, and the rest stays legal |
| DepthFirst.PathMoves | solver.py:107-109 | a legal path to a complete board spells out as many moves as it has steps, and they solve its first board |
| DepthFirst.Deepening | solver.py:115-121 | `dfs` from the start board with limits from `limit` to 199, the first path found; `DeepeningSound`, `DeepeningFinds` and `DeepeningFirstSuccess` state its properties and `Iddfs` computes it |
| DepthFirst.DeepeningSound | solver.py:115-121 | a path `iddfs` returns starts with the start board, moves legally, ends complete and has at most 199 boards |
| DepthFirst.DeepeningFinds | solver.py:115-119 | `iddfs` returns a path whenever `dfs` succeeds at a later limit below 200 |
| DepthFirst.DeepeningFirstSuccess | solver.py:115-119 | the path returned is the one `dfs` finds at the smallest successful limit |
| DepthFirst.StartCompleteDeepening | solver.py:99-119 | a complete start board is returned as the one-board path `[start]` |
| DepthFirst.Iddfs | solver.py:96-121 | the loop over limits 5 .. 199 returns what the deepening function gives |
| DepthFirst.IddfsFindsShortSolutions | solver.py:96-121 | any start board that a legal path of at most 198 moves takes to a complete board gets a solution from `iddfs` |
| Beam.Lookahead | solver.py:131-148 | with a non-negative heuristic, the lookahead cost is non-negative |
| Beam.LookaheadChildren | solver.py:142-148 | `min_cost` never exceeds its initial 999999999, and is non-negative for a non-negative heuristic |
| Beam.LookaheadChildrenBelow | solver.py:142-148 | `min_cost` is at most the lookahead of every child |
| Beam.LookaheadChildrenAttained | solver.py:142-148 | `min_cost` is the lookahead of some child, or 999999999 |
| Beam.LookaheadOneMoveFromGoal | solver.py:131-148 | an unexplored board one move from a complete board has lookahead 0 |
| Beam.Register | solver.py:178-185 | one turn of the inner loop for one move, as a function of the search state; `RegisterCases`, `RegisterKeepsExplored` and `RegisterKeepsCosts` state its effect and `RegisterChild` computes it |
| Beam.RegisterCases | solver.py:178-185 | for one child, either both dictionaries stay as they were, or a child not explored before is filed under its tiles in both; a draw below the threshold changes neither |
| Beam.RegisterKeepsExplored | solver.py:181-185 | one child never removes or changes an explored board |
| Beam.RegisterKeepsCosts | solver.py:181-185 | one child never removes or changes a recorded cost, and the keys of `entropies` stay keys of `explored` |
| Beam.Expand | solver.py:177-185 | the inner loop over the parent's moves, as a function of the search state; the `Expand*` lemmas state its effect and `ExpandParent` computes it |
| Beam.ExpandKeepsExplored | solver.py:177-185 | expanding a parent never removes or changes an explored board |
| Beam.ExpandKeepsCosts | solver.py:177-185 | expanding a parent never removes or changes a recorded cost |
| Beam.ExpandKeeps | solver.py:177-185 | both of the above together |
| Beam.ExpandNewKeys | solver.py:177-185 | expansion adds the same new keys to both dictionaries, so every key of `entropies` stays a key of `explored` |
| Beam.ExpandGrowsEqually | solver.py:177-185 | both dictionaries grow by the same number of entries |
| Beam.ExpandChildren | solver.py:177-185 | every board expansion adds is a child of the parent, filed under its own tiles |
| Beam.ExpandAcceptsAll | solver.py:181-185 | when every draw is at least the threshold, every child ends up explored |
| Beam.ExpandRejectsAll | solver.py:181-185 | when every draw is below the threshold, neither dictionary changes |
| Beam.RegisterChild | solver.py:178-185 | the body of the inner loop for one move computes `Register` |
| Beam.ExpandParent | solver.py:177-185 | the inner loop over the parent's moves computes `Expand` |
| Beam.MinimumExists | solver.py:157-168 | every non-empty set of keys has one of least cost |
| Beam.PickMinimum | solver.py:157-168 | the first entry of the sorted items is a key of least cost |
| Beam.PathTo | solver.py:173-190 | the parent links from a board descended from the start spell out a path from the start to that board |
| Beam.PathToLegal | solver.py:173-190 | consecutive boards of that path are one legal move apart |
| Beam.FiledSolution | solver.py:173-190 | a complete board in `explored` spells out, through its parent links, a solution of the start board |
| Beam.ExpandPreserves | solver.py:177-187 | expanding a filed parent keeps every entry filed and inside the universe, grows both dictionaries equally, and either leaves `explored` as it was or shrinks what is left of the universe |
| Beam.BeamTurn | solver.py:156-187 | one turn removes a least-cost entry of `entropies` and never puts it back; it stops when its board is complete, and otherwise the new dictionaries are exactly the expansion of that board's possible moves at the temperature of the current tick count; every explored board is kept, the invariants hold and both dictionaries stay in balance |
| Beam.Beamlike | solver.py:125-190 | `beamlike` terminates with a complete board or an empty `entropies`; the count returned is the size of `explored`; every explored board is filed under its tiles and descends from the start by legal moves; every key of `entropies` is a key of `explored`; a complete start board is returned at once, with count 1 |
| Setup.ApplyMoves | solver.py:36-44 | replaying moves keeps `n`, the blank and the tile count, and adds one move of depth per move |
| Setup.ApplyMovesTilesOnly | solver.py:36-44 | replaying moves depends only on `n` and the tiles of the first board |
| Setup.ReplayPath | solver.py:36-44 | the boards visited by a replay run from the first board to the result |
| Setup.ReplayPathLegal | solver.py:36-44 | on a permutation the replayed boards form a legal path and the result is a permutation |
| Setup.Reverse | solver.py:42 | `solution.reverse()` keeps the length and puts element `i` at `len - 1 - i` |
| Setup.ReverseSnoc | solver.py:40-42 | reversing after an append puts the appended move first |
| Puzzle.Goal | solver.py:33 | the solved arrangement `range(1, N**2) + [0]`; `GoalValid` proves it a permutation holding the blank and `CompleteIsGoal` proves it the only complete permutation |
| Setup.GoalValid | solver.py:33 | `range(1, N**2) + [0]` is a permutation holding the blank |
| Setup.ShuffleStep | solver.py:37-40 | one more shuffle move keeps the reversed list a way home |
| Setup.ReplayCompletes | solver.py:42-44 | replaying moves that reach the goal tiles ends on a complete board |
| Setup.ShuffleStart | solver.py:30-44 | for every choice of moves, the shuffled board is a valid N x N board `n` moves deep, and replaying the returned solution on it succeeds at every step and ends on the goal `[1, ..., N*N-1, 0]` |
| Setup.ShuffledIsSolvable | solver.py:30-44 | a board shuffled by at most 198 moves gets a solution from `iddfs` |
| Setup.DefineStart | solver.py:46-48 | the root board has the given tiles, and is valid exactly when they are a permutation of `0 .. N*N-1`; empty tiles give the identity arrangement |

## Left out

- `main` (solver.py:193-221) and `NPuzzleBoard.__str__` (board.py:27-36): console printing and formatting. The `print` in `beamlike` is left out too.
- The final float division of `avgmdist_entropy` (solver.py:90). `Heuristics.AvgMdistTotals` returns the two integer totals. `Heuristics.SolvedBoardHasNoMisplaced` shows that the divisor is 0 on a solved board, where the source raises `ZeroDivisionError`.
- Python's `hash(tuple(...))` (board.py:25). The tile sequence is the signature, so hash collisions are outside the model.
- The distributions of `random.random` and `random.randint`. They are the oracles `draws` and `pick`, and every property is stated for all oracle values.
- Tie-breaking among equal costs in `sorted(entropies.items(), ...)`. `Beam.PickMinimum` returns some key of least cost.
- `copy.deepcopy` of the tile list is a plain copy into a fresh array.
- Heuristics.TileDistance: requires the tile to be on the board and `N == b.n`. The source raises on a missing tile (`positionof` returns None) and reads the module constant `N = 5`.
- Puzzle.Swap: requires the blank and `v` to be on the board. The source raises on `None.mdist` otherwise. The same holds for `PossibleSwaps` and the search functions built on them, which require a well-formed or valid board.
- Setup.ShuffleStart: requires `N >= 2`. For `N = 1` the source's `randint(0, -1)` raises at the first step. The cases `N <= 1` with no shuffle moves are not modelled.
- Beam.Beamlike: the final dictionaries are ghost outputs used to state what the search leaves behind. The source returns only the board and `len(explored)`.
- Beam.Lookahead: the heuristic is any total function `h`. The source's default `mdist_entropy` needs every tile on the board, which holds for the valid boards the search visits.
- Heuristics.Temperature: exact rational arithmetic over `real`, not IEEE floating point.

## Findings

| source | as written | input that shows it | evidently intended | confidence | as-written member | corrected member |
|---|---|---|---|---|---|---|
| solver.py:86-88 | `total_misplaced` grows whenever the running total `total_mdist` is positive, so every tile after the first misplaced one is counted | the 2 x 2 board `[2, 1, 3, 0]`: tiles 1 and 2 are misplaced and tile 3 is at home, yet the counter reaches 3 | count tile i only when its own distance is positive, as the docstring "average manhattan distance of misplaced pieces" says (count 2) | not executed; proved about the model | Heuristics.RunningMisplacedCounterexample | Heuristics.MisplacedCount |
