/** Grid coordinates of an N x N board (board.py, NPuzzleCoordinate). */
module Coordinates {

  /** A linear index `idx` seen as a (row, col) cell of an n x n grid. */
  datatype Coordinate = Coordinate(row: int, col: int, n: int, idx: int)

  /** The coordinate of linear index `ix`: row = ix / n, col = ix % n. */
  function CoordinateOf(n: int, ix: nat): (c: Coordinate)
    requires n > 0
    ensures c.n == n && c.idx == ix
    ensures c.row * n + c.col == ix
    ensures 0 <= c.col < n && 0 <= c.row
  {
    Coordinate(ix / n, ix % n, n, ix)
  }

  function Abs(x: int): int
  {
    if x < 0 then -x else x
  }

  /** Manhattan distance between two coordinates. */
  function MDist(a: Coordinate, b: Coordinate): (d: int)
    ensures d >= 0
    ensures d == 0 <==> a.row == b.row && a.col == b.col
  {
    Abs(a.col - b.col) + Abs(a.row - b.row)
  }

  lemma MDistSymmetric(a: Coordinate, b: Coordinate)
    ensures MDist(a, b) == MDist(b, a)
  {
  }

  /** Quotient and remainder are unique: the only way to write x as q*n + r with 0 <= r < n. */
  lemma DivModUnique(x: int, n: int, q: int, r: int)
    requires n > 0 && x == q * n + r && 0 <= r < n
    ensures x / n == q && x % n == r
  {
    MulAddUnique(n, q, r, x / n, x % n);
  }

  lemma MulAddUnique(n: int, q: int, r: int, q': int, r': int)
    requires n > 0 && 0 <= r < n && 0 <= r' < n
    requires q * n + r == q' * n + r'
    ensures q == q' && r == r'
  {
    assert (q - q') * n == r' - r;
    MulSign(q - q', n);
  }

  lemma MulSign(d: int, n: int)
    requires n > 0
    ensures d > 0 ==> d * n >= n
    ensures d < 0 ==> d * n <= -n
  {
    if d > 0 {
      MulAtLeast(d, n);
    } else if d < 0 {
      MulAtLeast(-d, n);
      assert d * n == -((-d) * n);
    }
  }

  lemma {:induction false} MulAtLeast(d: int, n: int)
    requires d >= 1 && n > 0
    ensures d * n >= n
    decreases d
  {
    if d > 1 {
      MulAtLeast(d - 1, n);
      assert d * n == (d - 1) * n + n;
    }
  }

  /** Two indices of one grid sit on the same cell exactly when they are equal. */
  lemma SameCellSameIndex(n: int, i: nat, j: nat)
    requires n > 0
    ensures (CoordinateOf(n, i).row == CoordinateOf(n, j).row && CoordinateOf(n, i).col == CoordinateOf(n, j).col) <==> i == j
  {
    var a, b := CoordinateOf(n, i), CoordinateOf(n, j);
    if a.row == b.row && a.col == b.col {
      assert a.row * n == b.row * n;
    }
  }

  /**
   * Cells at Manhattan distance 1 have linear indices that differ by 1
   * (same row) or by n (same column): the four offsets of possibleswaps.
   */
  lemma {:induction false} UnitDistanceOffsets(n: int, z: nat, j: nat)
    requires n > 0
    requires MDist(CoordinateOf(n, z), CoordinateOf(n, j)) == 1
    ensures j == z - 1 || j == z + 1 || j == z - n || j == z + n
  {
    var a, b := CoordinateOf(n, z), CoordinateOf(n, j);
    if a.row == b.row {
      assert a.row * n == b.row * n;
    } else {
      assert a.col == b.col;
      if b.row == a.row + 1 {
        assert b.row * n == a.row * n + n;
      } else {
        assert a.row == b.row + 1;
        assert a.row * n == b.row * n + n;
      }
    }
  }

  /** Index i and the index n further on are vertically adjacent cells. */
  lemma VerticalNeighbours(n: int, i: nat)
    requires n > 0
    ensures MDist(CoordinateOf(n, i), CoordinateOf(n, i + n)) == 1
  {
    var a := CoordinateOf(n, i);
    assert i + n == (a.row + 1) * n + a.col;
    DivModUnique(i + n, n, a.row + 1, a.col);
  }
}
