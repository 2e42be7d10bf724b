/**
 * The puzzle board (board.py, NPuzzleBoard).
 *
 * A board is an immutable snapshot: a grid size n, the tiles in row-major
 * order (0 is the blank), a link to the board it was produced from and the
 * number of moves from the root. Boards are never updated after they are
 * built, so a board is a datatype value; its hash is its tile sequence.
 */
module Puzzle {
  import opened Wrappers
  import opened Coordinates

  datatype Board = Board(n: nat, tiles: seq<int>, parent: Option<Board>, depth: int)

  predicate Distinct(t: seq<int>)
  {
    forall i, j :: 0 <= i < j < |t| ==> t[i] != t[j]
  }

  /** `t` holds each of 0 .. n*n-1 exactly once. */
  predicate IsPermutation(t: seq<int>, n: nat)
  {
    |t| == n * n &&
    (forall i :: 0 <= i < |t| ==> 0 <= t[i] < |t|) &&
    Distinct(t) &&
    (forall v :: 0 <= v < |t| ==> v in t)
  }

  /** The tiles fit the grid and contain a blank: what possibleswaps needs. */
  predicate WellFormed(b: Board)
  {
    b.n > 0 && |b.tiles| == b.n * b.n && 0 in b.tiles
  }

  /** A board the solver can work on: its tiles are a permutation of 0 .. n*n-1. */
  predicate Valid(b: Board)
  {
    WellFormed(b) && IsPermutation(b.tiles, b.n)
  }

  /** The solved arrangement [1, 2, ..., n*n-1, 0]. */
  function Goal(n: nat): seq<int>
  {
    seq(n * n, i => if i < n * n - 1 then i + 1 else 0)
  }

  // ------------------------------------------------------------------------
  // Construction
  // ------------------------------------------------------------------------

  /**
   * The constructor: copies a non-empty `preconfig` element by element;
   * an empty one (Python's `None` or `[]`, both false) gives [0, 1, ..., n*n-1].
   */
  method NewBoard(parent: Option<Board>, n: nat, depth: int, preconfig: seq<int>) returns (b: Board)
    ensures b.n == n && b.parent == parent && b.depth == depth
    ensures preconfig != [] ==> b.tiles == preconfig
    ensures preconfig == [] ==> |b.tiles| == n * n && forall i :: 0 <= i < n * n ==> b.tiles[i] == i
    ensures preconfig == [] && n >= 2 ==> !IsComplete(b)
  {
    var vals: seq<int> := [];
    if preconfig != [] {
      for i := 0 to |preconfig|
        invariant vals == preconfig[..i]
      {
        vals := vals + [preconfig[i]];
      }
    } else {
      vals := seq(n * n, x => x);
      if n >= 2 {
        assert n * n >= 2 * n;
        assert vals[0] != 0 + 1;
      }
    }
    b := Board(n, vals, parent, depth);
  }

  // ------------------------------------------------------------------------
  // positionof
  // ------------------------------------------------------------------------

  /** The first index at or after `i` that holds `v`, as a coordinate. */
  function PositionFrom(t: seq<int>, n: int, v: int, i: nat): (r: Option<Coordinate>)
    requires n > 0 && i <= |t|
    decreases |t| - i
    ensures r.None? <==> forall j :: i <= j < |t| ==> t[j] != v
    ensures r.Some? ==> i <= r.value.idx < |t| && t[r.value.idx] == v &&
                        r.value == CoordinateOf(n, r.value.idx) &&
                        forall j :: i <= j < r.value.idx ==> t[j] != v
  {
    if i == |t| then None
    else if t[i] == v then Some(CoordinateOf(n, i))
    else PositionFrom(t, n, v, i + 1)
  }

  /** positionof: the coordinate of the first cell holding `v`, None exactly when `v` is absent. */
  function PositionOf(b: Board, v: int): (r: Option<Coordinate>)
    requires b.n > 0
    ensures r.None? <==> v !in b.tiles
    ensures r.Some? ==> 0 <= r.value.idx < |b.tiles| && b.tiles[r.value.idx] == v &&
                        r.value == CoordinateOf(b.n, r.value.idx) &&
                        forall j :: 0 <= j < r.value.idx ==> b.tiles[j] != v
  {
    PositionFrom(b.tiles, b.n, v, 0)
  }

  /** The linear scan of positionof, with its early return. */
  method FindPosition(b: Board, v: int) returns (r: Option<Coordinate>)
    requires b.n > 0
    ensures r == PositionOf(b, v)
  {
    for i := 0 to |b.tiles|
      invariant forall j :: 0 <= j < i ==> b.tiles[j] != v
    {
      if v == b.tiles[i] {
        return Some(CoordinateOf(b.n, i));
      }
    }
    return None;
  }

  /** Where the blank is. */
  function Blank(b: Board): (z: Coordinate)
    requires b.n > 0 && 0 in b.tiles
    ensures 0 <= z.idx < |b.tiles| && b.tiles[z.idx] == 0 && z == CoordinateOf(b.n, z.idx)
  {
    PositionOf(b, 0).value
  }

  /** On distinct tiles, the position of the value at index k is k itself. */
  lemma PositionOfAt(b: Board, k: int)
    requires b.n > 0 && Distinct(b.tiles) && 0 <= k < |b.tiles|
    ensures PositionOf(b, b.tiles[k]) == Some(CoordinateOf(b.n, k))
  {
    var r := PositionOf(b, b.tiles[k]);
    assert r.Some?;
  }

  // ------------------------------------------------------------------------
  // iscomplete
  // ------------------------------------------------------------------------

  /** iscomplete: every cell but the last holds its index plus one. */
  predicate IsComplete(b: Board)
  {
    forall i :: 0 <= i < |b.tiles| - 1 ==> b.tiles[i] == i + 1
  }

  /** The loop of iscomplete, returning False at the first wrong cell. */
  method CheckComplete(b: Board) returns (done: bool)
    ensures done == IsComplete(b)
  {
    var i := 0;
    while i < |b.tiles| - 1
      invariant 0 <= i <= |b.tiles|
      invariant forall j :: 0 <= j < i ==> b.tiles[j] == j + 1
    {
      if i + 1 != b.tiles[i] {
        return false;
      }
      i := i + 1;
    }
    return true;
  }

  /** On a permutation, the goal test forces the blank into the last cell: complete means solved. */
  lemma CompleteIsGoal(b: Board)
    requires Valid(b)
    ensures IsComplete(b) <==> b.tiles == Goal(b.n)
  {
    var t := b.tiles;
    if IsComplete(b) {
      var k :| 0 <= k < |t| && t[k] == 0;
      assert k == |t| - 1;
      assert forall i :: 0 <= i < |t| ==> t[i] == Goal(b.n)[i];
    }
  }

  // ------------------------------------------------------------------------
  // possibleswaps
  // ------------------------------------------------------------------------

  /** Index j lies on the grid at Manhattan distance 1 from coordinate z. */
  predicate IsNeighbour(b: Board, z: Coordinate, j: int)
    requires b.n > 0
  {
    0 <= j < b.n * b.n && MDist(z, CoordinateOf(b.n, j)) == 1
  }

  /** The tiles at z.idx + d, for each offset d in order, that pass the bounds and distance checks. */
  function NeighbourValues(b: Board, z: Coordinate, offsets: seq<int>): (r: seq<int>)
    requires b.n > 0 && |b.tiles| == b.n * b.n
    ensures |r| <= |offsets|
  {
    if offsets == [] then []
    else
      var d := offsets[|offsets| - 1];
      NeighbourValues(b, z, offsets[..|offsets| - 1]) +
      (if IsNeighbour(b, z, z.idx + d) then [b.tiles[z.idx + d]] else [])
  }

  /** Every value offered sits at an in-bounds neighbour reached by one of the offsets. */
  lemma {:induction false} NeighbourValuesSound(b: Board, z: Coordinate, offsets: seq<int>, x: int)
    requires b.n > 0 && |b.tiles| == b.n * b.n && x in NeighbourValues(b, z, offsets)
    ensures exists k :: 0 <= k < |offsets| && IsNeighbour(b, z, z.idx + offsets[k]) && x == b.tiles[z.idx + offsets[k]]
    decreases |offsets|
  {
    var last := |offsets| - 1;
    var init := offsets[..last];
    var d := offsets[last];
    if x in NeighbourValues(b, z, init) {
      NeighbourValuesSound(b, z, init, x);
      var k :| 0 <= k < |init| && IsNeighbour(b, z, z.idx + init[k]) && x == b.tiles[z.idx + init[k]];
      assert offsets[k] == init[k];
    } else {
      assert IsNeighbour(b, z, z.idx + d) && x == b.tiles[z.idx + d];
    }
  }

  /** Every in-bounds neighbour reached by one of the offsets has its value offered. */
  lemma {:induction false} NeighbourValuesComplete(b: Board, z: Coordinate, offsets: seq<int>, k: int)
    requires b.n > 0 && |b.tiles| == b.n * b.n
    requires 0 <= k < |offsets| && IsNeighbour(b, z, z.idx + offsets[k])
    ensures b.tiles[z.idx + offsets[k]] in NeighbourValues(b, z, offsets)
    decreases |offsets|
  {
    var last := |offsets| - 1;
    var init := offsets[..last];
    if k < last {
      assert init[k] == offsets[k];
      NeighbourValuesComplete(b, z, init, k);
    }
  }

  /** A value is offered exactly when it sits at an in-bounds neighbour reached by one of the offsets. */
  lemma NeighbourValuesMembers(b: Board, z: Coordinate, offsets: seq<int>, x: int)
    requires b.n > 0 && |b.tiles| == b.n * b.n
    ensures x in NeighbourValues(b, z, offsets) <==>
            exists k :: 0 <= k < |offsets| && IsNeighbour(b, z, z.idx + offsets[k]) && x == b.tiles[z.idx + offsets[k]]
  {
    if x in NeighbourValues(b, z, offsets) {
      NeighbourValuesSound(b, z, offsets, x);
    }
    if exists k :: 0 <= k < |offsets| && IsNeighbour(b, z, z.idx + offsets[k]) && x == b.tiles[z.idx + offsets[k]] {
      var k :| 0 <= k < |offsets| && IsNeighbour(b, z, z.idx + offsets[k]) && x == b.tiles[z.idx + offsets[k]];
      NeighbourValuesComplete(b, z, offsets, k);
    }
  }

  /** The offsets tried by possibleswaps: left, right, up, down. */
  function Offsets(n: nat): seq<int>
  {
    [-1, 1, -(n as int), n]
  }

  /** possibleswaps: at most four tiles, each next to the blank. */
  function PossibleSwaps(b: Board): (r: seq<int>)
    requires WellFormed(b)
    ensures |r| <= 4
    ensures forall x :: x in r ==> x in b.tiles
    ensures forall x :: x in r ==> exists j :: IsNeighbour(b, Blank(b), j) && x == b.tiles[j]
  {
    var z := Blank(b);
    var r := NeighbourValues(b, z, Offsets(b.n));
    assert forall x :: x in r ==> exists j :: IsNeighbour(b, z, j) && x == b.tiles[j] by {
      forall x | x in r ensures exists j :: IsNeighbour(b, z, j) && x == b.tiles[j] {
        NeighbourValuesMembers(b, z, Offsets(b.n), x);
        var k :| 0 <= k < 4 && IsNeighbour(b, z, z.idx + Offsets(b.n)[k]) && x == b.tiles[z.idx + Offsets(b.n)[k]];
      }
    }
    r
  }

  /** The loop of possibleswaps, appending each tile that passes both checks. */
  method CollectPossibleSwaps(b: Board) returns (possible: seq<int>)
    requires WellFormed(b)
    ensures possible == PossibleSwaps(b)
  {
    possible := [];
    var idxoffsets := [-1, 1, -(b.n as int), b.n];
    var zeropos := FindPosition(b, 0);
    var z := zeropos.value;
    for k := 0 to |idxoffsets|
      invariant possible == NeighbourValues(b, z, idxoffsets[..k])
    {
      var delta := idxoffsets[k];
      assert idxoffsets[..k + 1][..k] == idxoffsets[..k];
      if z.idx + delta >= 0 && z.idx + delta < b.n * b.n {
        var targetpos := CoordinateOf(b.n, z.idx + delta);
        if MDist(z, targetpos) == 1 {
          possible := possible + [b.tiles[z.idx + delta]];
        }
      }
    }
    assert idxoffsets[..|idxoffsets|] == Offsets(b.n);
  }

  /** Every in-bounds cell at distance 1 from the blank contributes its tile. */
  lemma {:induction false} PossibleSwapsComplete(b: Board, j: int)
    requires WellFormed(b) && IsNeighbour(b, Blank(b), j)
    ensures b.tiles[j] in PossibleSwaps(b)
  {
    var z := Blank(b);
    UnitDistanceOffsets(b.n, z.idx, j);
    var k := if j == z.idx - 1 then 0 else if j == z.idx + 1 then 1 else if j == z.idx - b.n then 2 else 3;
    assert z.idx + Offsets(b.n)[k] == j;
    NeighbourValuesMembers(b, z, Offsets(b.n), b.tiles[j]);
  }

  lemma {:induction false} NeighbourValuesDistinct(b: Board, z: Coordinate, offsets: seq<int>)
    requires b.n > 0 && |b.tiles| == b.n * b.n && Distinct(b.tiles)
    requires forall p, q :: 0 <= p < q < |offsets| && IsNeighbour(b, z, z.idx + offsets[p]) ==> offsets[p] != offsets[q]
    ensures Distinct(NeighbourValues(b, z, offsets))
    decreases |offsets|
  {
    if offsets != [] {
      var last := |offsets| - 1;
      var init := offsets[..last];
      var d := offsets[last];
      forall p, q | 0 <= p < q < |init| && IsNeighbour(b, z, z.idx + init[p])
        ensures init[p] != init[q]
      {
        assert init[p] == offsets[p] && init[q] == offsets[q];
      }
      NeighbourValuesDistinct(b, z, init);
      var rest := NeighbourValues(b, z, init);
      if IsNeighbour(b, z, z.idx + d) {
        var x := b.tiles[z.idx + d];
        NeighbourValuesMembers(b, z, init, x);
        forall k | 0 <= k < |init| && IsNeighbour(b, z, z.idx + init[k])
          ensures x != b.tiles[z.idx + init[k]]
        {
          assert offsets[k] == init[k];
        }
        assert x !in rest;
        assert NeighbourValues(b, z, offsets) == rest + [x];
      }
    }
  }

  /** On a permutation the values offered by possibleswaps are pairwise distinct. */
  lemma PossibleSwapsDistinct(b: Board)
    requires Valid(b)
    ensures Distinct(PossibleSwaps(b))
  {
    var z := Blank(b);
    NeighbourValuesDistinct(b, z, Offsets(b.n));
  }

  /** On a grid of side 2 or more the blank always has a neighbour, so some move exists. */
  lemma PossibleSwapsNonEmpty(b: Board)
    requires WellFormed(b) && b.n >= 2
    ensures |PossibleSwaps(b)| >= 1
  {
    var z := Blank(b);
    var n := b.n;
    assert z.row * n + z.col == z.idx;
    var j;
    if z.row > 0 {
      MulSign(z.row, n);
      j := z.idx - n;
      VerticalNeighbours(n, j);
      MDistSymmetric(CoordinateOf(n, j), z);
    } else {
      MulSign(n - 1, n);
      assert n * n == (n - 1) * n + n;
      j := z.idx + n;
      VerticalNeighbours(n, z.idx);
    }
    assert IsNeighbour(b, z, j);
    PossibleSwapsComplete(b, j);
  }

  // ------------------------------------------------------------------------
  // swap
  // ------------------------------------------------------------------------

  /** A copy of `t` with cells i and j exchanged. */
  function Exchanged(t: seq<int>, i: int, j: int): (s: seq<int>)
    requires 0 <= i < |t| && 0 <= j < |t|
    ensures |s| == |t| && s[i] == t[j] && s[j] == t[i]
    ensures forall k :: 0 <= k < |t| && k != i && k != j ==> s[k] == t[k]
  {
    t[i := t[j]][j := t[i]]
  }

  /**
   * swap: when `v` sits at distance 1 from the blank, a new board with the two
   * cells exchanged, this board as parent and one more move; otherwise None.
   */
  function Swap(b: Board, v: int): (r: Option<Board>)
    requires b.n > 0 && 0 in b.tiles && v in b.tiles
    ensures v == 0 ==> r.None?
    ensures r.Some? ==> r.value.parent == Some(b) && r.value.depth == b.depth + 1 && r.value.n == b.n
    ensures r.Some? ==> |r.value.tiles| == |b.tiles| && 0 in r.value.tiles && v in r.value.tiles
  {
    var zeropos := Blank(b);
    var valpos := PositionOf(b, v).value;
    if MDist(valpos, zeropos) == 1 then
      var t := Exchanged(b.tiles, zeropos.idx, valpos.idx);
      assert t[valpos.idx] == 0 && t[zeropos.idx] == v;
      Some(Board(b.n, t, Some(b), b.depth + 1))
    else
      None
  }

  /** swap as the source runs it: copy the tiles, exchange two cells of the copy in place, build a board. */
  method ApplySwap(b: Board, v: int) returns (r: Option<Board>)
    requires b.n > 0 && 0 in b.tiles && v in b.tiles
    ensures r == Swap(b, v)
  {
    var zeropos := FindPosition(b, 0);
    var valpos := FindPosition(b, v);
    if MDist(valpos.value, zeropos.value) == 1 {
      var zeroidx := zeropos.value.idx;
      var validx := valpos.value.idx;
      var newconfig := new int[|b.tiles|](i requires 0 <= i < |b.tiles| => b.tiles[i]);
      var temp := newconfig[zeroidx];
      newconfig[zeroidx] := newconfig[validx];
      newconfig[validx] := temp;
      assert newconfig[..] == Exchanged(b.tiles, zeroidx, validx);
      var newboard := NewBoard(Some(b), b.n, b.depth + 1, newconfig[..]);
      return Some(newboard);
    }
    return None;
  }

  lemma ExchangedPermutation(t: seq<int>, n: nat, i: int, j: int)
    requires IsPermutation(t, n) && 0 <= i < |t| && 0 <= j < |t|
    ensures IsPermutation(Exchanged(t, i, j), n)
  {
    var s := Exchanged(t, i, j);
    forall v | 0 <= v < |s| ensures v in s {
      assert v in t;
      var k :| 0 <= k < |t| && t[k] == v;
      if k == i {
        assert s[j] == v;
      } else if k == j {
        assert s[i] == v;
      } else {
        assert s[k] == v;
      }
    }
  }

  /** On a permutation the result of swap trades the blank and `v` and keeps every other cell. */
  lemma SwapExchanges(b: Board, v: int)
    requires Valid(b) && v in b.tiles && Swap(b, v).Some?
    ensures var c := Swap(b, v).value;
      Valid(c) && |c.tiles| == |b.tiles| &&
      forall i :: 0 <= i < |b.tiles| ==>
        c.tiles[i] == (if b.tiles[i] == 0 then v else if b.tiles[i] == v then 0 else b.tiles[i])
  {
    var c := Swap(b, v).value;
    var z, p := Blank(b).idx, PositionOf(b, v).value.idx;
    ExchangedPermutation(b.tiles, b.n, z, p);
    assert c.tiles == Exchanged(b.tiles, z, p);
    assert 0 in c.tiles by {
      assert c.tiles[p] == 0;
    }
  }

  /** swap succeeds exactly for the values possibleswaps offers. */
  lemma SwapIffPossible(b: Board, v: int)
    requires Valid(b) && v in b.tiles
    ensures Swap(b, v).Some? <==> v in PossibleSwaps(b)
  {
    var z := Blank(b);
    var p := PositionOf(b, v).value;
    if Swap(b, v).Some? {
      MDistSymmetric(p, z);
      assert IsNeighbour(b, z, p.idx);
      PossibleSwapsComplete(b, p.idx);
    }
    if v in PossibleSwaps(b) {
      var j :| IsNeighbour(b, z, j) && v == b.tiles[j];
      PositionOfAt(b, j);
      MDistSymmetric(p, z);
    }
  }

  lemma ExchangedTwice(t: seq<int>, i: int, j: int)
    requires 0 <= i < |t| && 0 <= j < |t|
    ensures |Exchanged(t, i, j)| == |t| && Exchanged(Exchanged(t, i, j), j, i) == t
  {
  }

  /** Undoing a move: swapping the same tile back restores the tiles. */
  lemma SwapRoundTrip(b: Board, v: int)
    requires Valid(b) && v in b.tiles && Swap(b, v).Some?
    ensures var c := Swap(b, v).value;
      v in c.tiles && Swap(c, v).Some? && Swap(c, v).value.tiles == b.tiles
  {
    var c := Swap(b, v).value;
    var z, p := Blank(b), PositionOf(b, v).value;
    var t := c.tiles;
    assert MDist(p, z) == 1;
    assert t == Exchanged(b.tiles, z.idx, p.idx);
    ExchangedPermutation(b.tiles, b.n, z.idx, p.idx);
    assert t[z.idx] == v && t[p.idx] == 0;
    PositionOfAt(c, z.idx);
    PositionOfAt(c, p.idx);
    assert Blank(c) == p;
    assert PositionOf(c, v).value == z;
    MDistSymmetric(p, z);
    assert Swap(c, v) == Some(Board(c.n, Exchanged(t, p.idx, z.idx), Some(c), c.depth + 1));
    ExchangedTwice(b.tiles, z.idx, p.idx);
  }

  /** One legal move of the game: `c` is the board swap makes from `a` for one of its possible moves. */
  ghost predicate Step(a: Board, c: Board)
  {
    Valid(a) && exists v :: v in PossibleSwaps(a) && Swap(a, v) == Some(c)
  }

  /** The child a search reaches from `b` with move `m`. */
  function Child(b: Board, m: int): (c: Board)
    requires Valid(b) && m in PossibleSwaps(b)
    ensures Valid(c) && c.n == b.n && c.parent == Some(b) && Step(b, c)
  {
    SwapIffPossible(b, m);
    SwapExchanges(b, m);
    Swap(b, m).value
  }

  /** Swap looks only at the grid size and the tiles. */
  lemma SwapTilesOnly(a: Board, b: Board, v: int)
    requires a.n == b.n && a.tiles == b.tiles && a.n > 0 && 0 in a.tiles && v in a.tiles
    ensures Swap(a, v).Some? == Swap(b, v).Some?
    ensures Swap(a, v).Some? ==> Swap(a, v).value.tiles == Swap(b, v).value.tiles
  {
  }
}
