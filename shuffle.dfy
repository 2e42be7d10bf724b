/**
 * Building start boards (shufflestart and definestart, solver.py).
 *
 * shufflestart walks away from the solved board by random legal moves and
 * returns the moves reversed, which lead back to the solved board. The
 * random choice of move is the oracle `pick`.
 */
module Setup {
  import opened Wrappers
  import opened Puzzle
  import opened DepthFirst

  /** The board reached by swapping the given tiles one after another; None once a swap fails. */
  function ApplyMoves(b: Board, moves: seq<int>): (r: Option<Board>)
    requires b.n > 0 && 0 in b.tiles
    decreases |moves|
    ensures r.Some? ==> r.value.n == b.n && 0 in r.value.tiles && |r.value.tiles| == |b.tiles|
    ensures r.Some? ==> r.value.depth == b.depth + |moves|
  {
    if moves == [] then Some(b)
    else if moves[0] !in b.tiles then None
    else match Swap(b, moves[0])
      case None => None
      case Some(c) => ApplyMoves(c, moves[1..])
  }

  /** Replaying moves depends only on the grid size and the tiles of the first board. */
  lemma {:induction false} ApplyMovesTilesOnly(a: Board, b: Board, moves: seq<int>)
    requires a.n == b.n && a.tiles == b.tiles && a.n > 0 && 0 in a.tiles
    ensures ApplyMoves(a, moves).Some? == ApplyMoves(b, moves).Some?
    ensures ApplyMoves(a, moves).Some? ==> ApplyMoves(a, moves).value.tiles == ApplyMoves(b, moves).value.tiles
    decreases |moves|
  {
    if moves != [] && moves[0] in a.tiles {
      SwapTilesOnly(a, b, moves[0]);
      if Swap(a, moves[0]).Some? {
        ApplyMovesTilesOnly(Swap(a, moves[0]).value, Swap(b, moves[0]).value, moves[1..]);
      }
    }
  }

  /** The boards visited while replaying moves that succeed, from `b` to the result. */
  ghost function ReplayPath(b: Board, moves: seq<int>): (p: seq<Board>)
    requires b.n > 0 && 0 in b.tiles && ApplyMoves(b, moves).Some?
    decreases |moves|
    ensures |p| == |moves| + 1 && p[0] == b && Last(p) == ApplyMoves(b, moves).value
  {
    if moves == [] then [b]
    else [b] + ReplayPath(Swap(b, moves[0]).value, moves[1..])
  }

  /** The replayed boards form a legal path: each one a possible swap away from the one before. */
  lemma {:induction false} ReplayPathLegal(b: Board, moves: seq<int>)
    requires Valid(b) && ApplyMoves(b, moves).Some?
    ensures LegalFrom(ReplayPath(b, moves), 0) && Valid(ApplyMoves(b, moves).value)
    decreases |moves|
  {
    if moves != [] {
      var c := Swap(b, moves[0]).value;
      SwapIffPossible(b, moves[0]);
      SwapExchanges(b, moves[0]);
      assert Step(b, c);
      ReplayPathLegal(c, moves[1..]);
      var rest := ReplayPath(c, moves[1..]);
      var p := ReplayPath(b, moves);
      assert p == [b] + rest;
      forall k | 0 <= k < |p| - 1 ensures Step(p[k], p[k + 1]) {
        if k > 0 {
          assert p[k] == rest[k - 1] && p[k + 1] == rest[k];
        }
      }
    }
  }

  /** list.reverse: the same moves, last first. */
  function Reverse(s: seq<int>): (r: seq<int>)
    ensures |r| == |s| && forall i :: 0 <= i < |s| ==> r[i] == s[|s| - 1 - i]
  {
    if s == [] then [] else Reverse(s[1..]) + [s[0]]
  }

  lemma ReverseSnoc(s: seq<int>, v: int)
    ensures Reverse(s + [v]) == [v] + Reverse(s)
  {
    var l, r := Reverse(s + [v]), [v] + Reverse(s);
    assert |l| == |r|;
    forall i | 0 <= i < |l| ensures l[i] == r[i] {
      if i > 0 {
        assert (s + [v])[|s| - i] == s[|s| - i];
      }
    }
  }

  /** The solved board's tiles, range(1, N**2) + [0], are a permutation holding the blank. */
  lemma GoalValid(n: nat)
    requires n >= 1
    ensures IsPermutation(Goal(n), n) && 0 in Goal(n)
  {
    var g := Goal(n);
    assert g[n * n - 1] == 0;
    forall v | 0 <= v < |g| ensures v in g {
      if v == 0 {
        assert g[n * n - 1] == v;
      } else {
        assert g[v - 1] == v;
      }
    }
  }

  /**
   * One more shuffle move keeps the reversed move list a way home: from the
   * new board, undoing `v` and then replaying the old list ends on the same tiles.
   */
  lemma ShuffleStep(prev: Board, v: int, back: seq<int>)
    requires Valid(prev) && v in PossibleSwaps(prev) && ApplyMoves(prev, back).Some?
    ensures Swap(prev, v).Some?
    ensures var c := Swap(prev, v).value;
      ApplyMoves(c, [v] + back).Some? && ApplyMoves(c, [v] + back).value.tiles == ApplyMoves(prev, back).value.tiles
  {
    SwapIffPossible(prev, v);
    SwapRoundTrip(prev, v);
    var c := Swap(prev, v).value;
    var d := Swap(c, v).value;
    assert ([v] + back)[0] == v && ([v] + back)[1..] == back;
    assert ApplyMoves(c, [v] + back) == ApplyMoves(d, back);
    ApplyMovesTilesOnly(d, prev, back);
  }

  /** A board that replaying moves brings to the solved tiles ends on a complete board. */
  lemma ReplayCompletes(b: Board, moves: seq<int>)
    requires Valid(b) && ApplyMoves(b, moves).Some? && ApplyMoves(b, moves).value.tiles == Goal(b.n)
    ensures IsComplete(ApplyMoves(b, moves).value)
  {
    ReplayPathLegal(b, moves);
    CompleteIsGoal(ApplyMoves(b, moves).value);
  }

  /**
   * shufflestart: `n` random legal moves from the solved N x N board; the
   * returned solution, replayed on the returned board, solves it.
   */
  method ShuffleStart(N: nat, n: nat, pick: nat -> nat) returns (board: Board, solution: seq<int>)
    requires N >= 2
    ensures Valid(board) && board.n == N && board.depth == n && |solution| == n
    ensures ApplyMoves(board, solution).Some? && ApplyMoves(board, solution).value.tiles == Goal(N)
    ensures IsComplete(ApplyMoves(board, solution).value)
  {
    var moves: seq<int> := [];
    GoalValid(N);
    board := NewBoard(None, N, 0, Goal(N));
    for i := 0 to n
      invariant Valid(board) && board.n == N && board.depth == i && |moves| == i
      invariant ApplyMoves(board, Reverse(moves)).Some? && ApplyMoves(board, Reverse(moves)).value.tiles == Goal(N)
    {
      var swaps := CollectPossibleSwaps(board);
      PossibleSwapsNonEmpty(board);
      var val := swaps[pick(i) % |swaps|];
      ShuffleStep(board, val, Reverse(moves));
      SwapExchanges(board, val);
      ReverseSnoc(moves, val);
      var r := ApplySwap(board, val);
      board := r.value;
      moves := moves + [val];
    }
    solution := Reverse(moves);
    ReplayCompletes(board, solution);
  }

  /**
   * A board shuffled by at most 198 moves is within iddfs's reach: the
   * replayed solution is a legal path short enough for its last limit.
   */
  lemma ShuffledIsSolvable(board: Board, solution: seq<int>)
    requires Valid(board) && |solution| <= 198
    requires ApplyMoves(board, solution).Some? && ApplyMoves(board, solution).value.tiles == Goal(board.n)
    ensures Deepening(board, 5).Some?
  {
    var q := ReplayPath(board, solution);
    ReplayPathLegal(board, solution);
    ReplayCompletes(board, solution);
    IddfsFindsShortSolutions(board, q);
  }

  /**
   * definestart: a root board on the given tiles (the identity arrangement
   * when they are empty); with tiles given it is valid exactly when they are
   * a permutation of 0 .. N*N-1.
   */
  method DefineStart(N: nat, preconfig: seq<int>) returns (board: Board)
    ensures board.n == N && board.parent == None && board.depth == 0
    ensures preconfig != [] ==> board.tiles == preconfig && (Valid(board) <==> IsPermutation(preconfig, N))
    ensures preconfig == [] ==> |board.tiles| == N * N && forall i :: 0 <= i < N * N ==> board.tiles[i] == i
  {
    board := NewBoard(None, N, 0, preconfig);
    if preconfig != [] && IsPermutation(preconfig, N) {
      assert preconfig[0] in preconfig;
      assert 0 in preconfig;
    }
  }
}
