/**
 * Board heuristics and the annealing temperature (solver.py).
 *
 * The source reads the grid size from a module constant; here it is the
 * parameter N, which must equal the board's own n.
 */
module Heuristics {
  import opened Wrappers
  import opened Coordinates
  import opened Puzzle

  /** Tiles 1 .. k-1 are all on the board, so each positionof call finds its tile. */
  predicate HasTiles(b: Board, k: nat)
  {
    forall v :: 1 <= v < k ==> v in b.tiles
  }

  /** Manhattan distance of tile v from its goal cell, index v - 1. */
  function TileDistance(b: Board, N: nat, v: int): (d: int)
    requires N > 0 && b.n == N && 1 <= v && v in b.tiles
    ensures d >= 0
  {
    var targetpos := CoordinateOf(N, v - 1);
    var currentpos := PositionOf(b, v).value;
    MDist(targetpos, currentpos)
  }

  /** A tile is at distance zero exactly when its first cell is its goal cell. */
  lemma TileDistanceZero(b: Board, N: nat, v: int)
    requires N > 0 && b.n == N && 1 <= v && v in b.tiles
    ensures TileDistance(b, N, v) == 0 <==> PositionOf(b, v).value.idx == v - 1
  {
    SameCellSameIndex(N, v - 1, PositionOf(b, v).value.idx);
  }

  /** Total Manhattan distance of tiles 1 .. k-1 from their goal cells. */
  function ManhattanSum(b: Board, N: nat, k: nat): (total: int)
    requires N > 0 && b.n == N && HasTiles(b, k)
    ensures total >= 0
  {
    if k <= 1 then 0 else ManhattanSum(b, N, k - 1) + TileDistance(b, N, k - 1)
  }

  /** The sum is zero exactly when every one of its tiles is at distance zero. */
  lemma {:induction false} ManhattanSumZero(b: Board, N: nat, k: nat)
    requires N > 0 && b.n == N && HasTiles(b, k)
    ensures ManhattanSum(b, N, k) == 0 <==> forall v :: 1 <= v < k ==> TileDistance(b, N, v) == 0
  {
    if k > 1 {
      ManhattanSumZero(b, N, k - 1);
    }
  }

  /** mdist_entropy: the loop summing every tile's distance from its goal cell. */
  method MdistEntropy(b: Board, N: nat) returns (total_entropy: int)
    requires N > 0 && b.n == N && HasTiles(b, N * N)
    ensures total_entropy == ManhattanSum(b, N, N * N)
  {
    total_entropy := 0;
    assert N * N >= 1;
    for i := 1 to N * N
      invariant total_entropy == ManhattanSum(b, N, i)
    {
      assert i in b.tiles && HasTiles(b, i + 1);
      var targetpos := CoordinateOf(N, i - 1);
      var currentpos := FindPosition(b, i);
      assert MDist(targetpos, currentpos.value) == TileDistance(b, N, i);
      total_entropy := total_entropy + MDist(targetpos, currentpos.value);
    }
  }

  lemma ValidHasTiles(b: Board)
    requires Valid(b)
    ensures HasTiles(b, b.n * b.n)
  {
  }

  /** On a permutation the summed distance is zero exactly on a complete board. */
  lemma EntropyZeroIffComplete(b: Board, N: nat)
    requires Valid(b) && b.n == N
    ensures HasTiles(b, N * N)
    ensures ManhattanSum(b, N, N * N) == 0 <==> IsComplete(b)
  {
    ValidHasTiles(b);
    ManhattanSumZero(b, N, N * N);
    if ManhattanSum(b, N, N * N) == 0 {
      AllHomeIsComplete(b, N);
    }
    if IsComplete(b) {
      CompleteIsAllHome(b, N);
    }
  }

  lemma AllHomeIsComplete(b: Board, N: nat)
    requires Valid(b) && b.n == N && HasTiles(b, N * N)
    requires forall v :: 1 <= v < N * N ==> TileDistance(b, N, v) == 0
    ensures IsComplete(b)
  {
    var t := b.tiles;
    forall i | 0 <= i < |t| - 1 ensures t[i] == i + 1 {
      TileDistanceZero(b, N, i + 1);
    }
  }

  lemma CompleteIsAllHome(b: Board, N: nat)
    requires Valid(b) && b.n == N && HasTiles(b, N * N) && IsComplete(b)
    ensures forall v :: 1 <= v < N * N ==> TileDistance(b, N, v) == 0
  {
    forall v | 1 <= v < N * N ensures TileDistance(b, N, v) == 0 {
      PositionOfAt(b, v - 1);
      TileDistanceZero(b, N, v);
    }
  }

  // ------------------------------------------------------------------------
  // avgmdist_entropy: only the integer total and the misplaced counter
  // ------------------------------------------------------------------------

  /**
   * The counter as avgmdist_entropy keeps it: tile i is counted once the
   * running total through tile i is positive.
   */
  function RunningMisplaced(b: Board, N: nat, k: nat): (count: nat)
    requires N > 0 && b.n == N && HasTiles(b, k)
    ensures k >= 1 ==> count <= k - 1
  {
    if k <= 1 then 0
    else RunningMisplaced(b, N, k - 1) + (if ManhattanSum(b, N, k) > 0 then 1 else 0)
  }

  /** The source's counter is zero exactly when the total distance is. */
  lemma {:induction false} RunningMisplacedZero(b: Board, N: nat, k: nat)
    requires N > 0 && b.n == N && HasTiles(b, k)
    ensures RunningMisplaced(b, N, k) == 0 <==> ManhattanSum(b, N, k) == 0
  {
    if k > 1 {
      assert HasTiles(b, k - 1);
      RunningMisplacedZero(b, N, k - 1);
    }
  }

  /** The loop of avgmdist_entropy up to, not including, its final division. */
  method AvgMdistTotals(b: Board, N: nat) returns (total_mdist: int, total_misplaced: int)
    requires N > 0 && b.n == N && HasTiles(b, N * N)
    ensures total_mdist == ManhattanSum(b, N, N * N)
    ensures total_misplaced == RunningMisplaced(b, N, N * N)
  {
    total_mdist := 0;
    total_misplaced := 0;
    assert N * N >= 1;
    for i := 1 to N * N
      invariant total_mdist == ManhattanSum(b, N, i)
      invariant total_misplaced == RunningMisplaced(b, N, i)
    {
      assert i in b.tiles && HasTiles(b, i + 1);
      var targetpos := CoordinateOf(N, i - 1);
      var currentpos := FindPosition(b, i);
      var dist := MDist(targetpos, currentpos.value);
      assert dist == TileDistance(b, N, i);
      total_mdist := total_mdist + dist;
      assert total_mdist == ManhattanSum(b, N, i + 1);
      if total_mdist > 0 {
        total_misplaced := total_misplaced + 1;
      }
      assert total_misplaced == RunningMisplaced(b, N, i + 1);
    }
  }

  /** On a solved board the counter stays 0, so the final division of avgmdist_entropy divides by zero. */
  lemma SolvedBoardHasNoMisplaced(b: Board, N: nat)
    requires Valid(b) && b.n == N && IsComplete(b)
    ensures HasTiles(b, N * N) && RunningMisplaced(b, N, N * N) == 0
  {
    EntropyZeroIffComplete(b, N);
    RunningMisplacedZero(b, N, N * N);
  }

  /** The count of misplaced pieces the docstring of avgmdist_entropy names: tile i counts when its own distance is positive. */
  function MisplacedCount(b: Board, N: nat, k: nat): (count: nat)
    requires N > 0 && b.n == N && HasTiles(b, k)
    ensures k >= 1 ==> count <= k - 1
  {
    if k <= 1 then 0
    else MisplacedCount(b, N, k - 1) + (if TileDistance(b, N, k - 1) > 0 then 1 else 0)
  }

  /** The per-tile count is at most the total distance, and zero exactly when the total is. */
  lemma {:induction false} MisplacedCountBounds(b: Board, N: nat, k: nat)
    requires N > 0 && b.n == N && HasTiles(b, k)
    ensures MisplacedCount(b, N, k) <= ManhattanSum(b, N, k)
    ensures MisplacedCount(b, N, k) == 0 <==> ManhattanSum(b, N, k) == 0
  {
    if k > 1 {
      assert HasTiles(b, k - 1);
      MisplacedCountBounds(b, N, k - 1);
    }
  }

  /** The source's counter never counts fewer tiles than are misplaced. */
  lemma {:induction false} RunningMisplacedOvercounts(b: Board, N: nat, k: nat)
    requires N > 0 && b.n == N && HasTiles(b, k)
    ensures MisplacedCount(b, N, k) <= RunningMisplaced(b, N, k)
  {
    if k > 1 {
      assert HasTiles(b, k - 1);
      RunningMisplacedOvercounts(b, N, k - 1);
      if TileDistance(b, N, k - 1) > 0 {
        assert ManhattanSum(b, N, k) > 0;
      }
    }
  }

  /** Once tile 1 is away from its goal cell, the source's counter counts every later tile too. */
  lemma {:induction false} RunningMisplacedAfterFirst(b: Board, N: nat, k: nat)
    requires N > 0 && b.n == N && 2 <= k && HasTiles(b, k) && 1 in b.tiles && TileDistance(b, N, 1) > 0
    ensures RunningMisplaced(b, N, k) == k - 1
  {
    if k > 2 {
      RunningMisplacedAfterFirst(b, N, k - 1);
    }
  }

  /** A tile at its goal cell is not counted by the per-tile count. */
  lemma {:induction false} MisplacedCountSkipsHome(b: Board, N: nat, k: nat, v: int)
    requires N > 0 && b.n == N && HasTiles(b, k) && 1 <= v < k && TileDistance(b, N, v) == 0
    ensures MisplacedCount(b, N, k) <= k - 2
  {
    assert HasTiles(b, k - 1);
    if v < k - 1 {
      MisplacedCountSkipsHome(b, N, k - 1, v);
    }
  }

  /**
   * The source's counter overcounts strictly as soon as tile 1 is misplaced
   * and some other tile is at its goal cell.
   */
  lemma RunningMisplacedOvercountsStrictly(b: Board, N: nat, v: int)
    requires N > 0 && b.n == N && HasTiles(b, N * N)
    requires 1 in b.tiles && TileDistance(b, N, 1) > 0
    requires 1 < v < N * N && TileDistance(b, N, v) == 0
    ensures RunningMisplaced(b, N, N * N) == N * N - 1
    ensures MisplacedCount(b, N, N * N) < RunningMisplaced(b, N, N * N)
  {
    RunningMisplacedAfterFirst(b, N, N * N);
    MisplacedCountSkipsHome(b, N, N * N, v);
  }

  /** A 2 x 2 board with tiles 1 and 2 exchanged: [2, 1, 3, 0]. */
  predicate IsSwappedPair(b: Board)
  {
    b.n == 2 && |b.tiles| == 4 &&
    b.tiles[0] == 2 && b.tiles[1] == 1 && b.tiles[2] == 3 && b.tiles[3] == 0
  }

  lemma SwappedPairCoordinates()
    ensures CoordinateOf(2, 0) == Coordinate(0, 0, 2, 0)
    ensures CoordinateOf(2, 1) == Coordinate(0, 1, 2, 1)
    ensures CoordinateOf(2, 2) == Coordinate(1, 0, 2, 2)
  {
    DivModUnique(0, 2, 0, 0);
    DivModUnique(1, 2, 0, 1);
    DivModUnique(2, 2, 1, 0);
  }

  /** The distance of a tile, given the cell where it sits on a board without duplicates. */
  lemma TileDistanceAt(b: Board, N: nat, v: int, k: int)
    requires N > 0 && b.n == N && Distinct(b.tiles) && 0 <= k < |b.tiles| && b.tiles[k] == v && 1 <= v
    ensures v in b.tiles && TileDistance(b, N, v) == MDist(CoordinateOf(N, v - 1), CoordinateOf(N, k))
  {
    PositionOfAt(b, k);
  }

  lemma SwappedPairHasTiles(b: Board)
    requires IsSwappedPair(b)
    ensures Valid(b) && HasTiles(b, 4)
  {
    forall v | 0 <= v < 4 ensures v in b.tiles {
      if v == 0 { assert b.tiles[3] == v; }
      else if v == 1 { assert b.tiles[1] == v; }
      else if v == 2 { assert b.tiles[0] == v; }
      else { assert b.tiles[2] == v; }
    }
  }

  /** Tile 1 sits in the goal cell of tile 2. */
  lemma SwappedPairTileOne(b: Board)
    requires IsSwappedPair(b)
    ensures 1 in b.tiles && TileDistance(b, 2, 1) == 1
  {
    assert Distinct(b.tiles);
    TileDistanceAt(b, 2, 1, 1);
    SwappedPairCoordinates();
  }

  /** Tile 3 is at its goal cell. */
  lemma SwappedPairTileThree(b: Board)
    requires IsSwappedPair(b)
    ensures 3 in b.tiles && TileDistance(b, 2, 3) == 0
  {
    assert Distinct(b.tiles);
    TileDistanceAt(b, 2, 3, 2);
    SwappedPairCoordinates();
  }

  /**
   * On the 2 x 2 board [2, 1, 3, 0] two tiles are misplaced, but the
   * source's counter reaches three.
   */
  lemma RunningMisplacedCounterexample(b: Board)
    requires IsSwappedPair(b)
    ensures Valid(b) && HasTiles(b, 4)
    ensures RunningMisplaced(b, 2, 4) == 3
    ensures MisplacedCount(b, 2, 4) < 3
  {
    SwappedPairHasTiles(b);
    SwappedPairTileOne(b);
    SwappedPairTileThree(b);
    RunningMisplacedOvercountsStrictly(b, 2, 3);
  }

  // ------------------------------------------------------------------------
  // temperature
  // ------------------------------------------------------------------------

  /** temperature: x / (annealing + x), a value in [0, 1) for x >= 0 and annealing > 0. */
  function Temperature(x: real, annealing: real): (t: real)
    requires annealing + x != 0.0
    ensures 0.0 <= x && 0.0 < annealing ==> 0.0 <= t < 1.0
  {
    var d := annealing + x;
    assert x / d * d == x;
    x / d
  }

  /** The temperature never drops as x grows. */
  lemma TemperatureMonotone(x: real, y: real, annealing: real)
    requires 0.0 <= x <= y && 0.0 < annealing
    ensures Temperature(x, annealing) <= Temperature(y, annealing)
  {
    var p, q := annealing + x, annealing + y;
    var tx, ty := x / p, y / q;
    var pq := p * q;
    PositiveProduct(p, q);
    assert tx * p == x;
    assert ty * q == y;
    assert tx * pq == x * q;
    assert ty * pq == y * p;
    assert x * q <= y * p by {
      assert x * q == x * annealing + x * y;
      assert y * p == y * annealing + x * y;
    }
    assert (tx - ty) * pq == tx * pq - ty * pq;
    if tx > ty {
      PositiveProduct(tx - ty, pq);
      assert false;
    }
  }

  lemma PositiveProduct(a: real, b: real)
    requires a > 0.0 && b > 0.0
    ensures a * b > 0.0
  {
  }
}
