/**
 * Iterative-deepening depth-first search (iddfs and its inner dfs, solver.py).
 *
 * A path is a sequence of boards; dfs extends it one legal move at a time
 * and gives up once the depth counter reaches the limit.
 */
module DepthFirst {
  import opened Wrappers
  import opened Puzzle

  function Last(p: seq<Board>): Board
    requires |p| > 0
  {
    p[|p| - 1]
  }

  /** Every board from index i on follows from its predecessor by a legal move. */
  ghost predicate LegalFrom(p: seq<Board>, i: nat)
  {
    forall k :: i <= k < |p| - 1 ==> Step(p[k], p[k + 1])
  }

  /** `r` is a solution grown from `path`: it extends `path` by legal moves and ends on a complete board. */
  ghost predicate SolvesFrom(r: seq<Board>, path: seq<Board>)
  {
    1 <= |path| <= |r| && r[..|path|] == path && LegalFrom(r, |path| - 1) &&
    Valid(Last(r)) && IsComplete(Last(r))
  }

  /** A solution grown from `path + [next]` is one grown from `path` when `next` is a legal move away. */
  lemma SolvesFromShorter(r: seq<Board>, path: seq<Board>, next: Board)
    requires |path| >= 1 && SolvesFrom(r, path + [next]) && Step(Last(path), next)
    ensures SolvesFrom(r, path)
  {
    assert r[..|path|] == (path + [next])[..|path|] == path;
    assert r[|path| - 1] == Last(path) && r[|path|] == next;
  }

  /** dfs: the path found below the last board of `path`, at most `maxdepth - cur` moves deeper. */
  function Dfs(path: seq<Board>, cur: int, maxdepth: int): (r: Option<seq<Board>>)
    requires |path| >= 1 && Valid(Last(path)) && cur <= maxdepth
    decreases maxdepth - cur, 1, 0
    ensures r.Some? ==> |path| <= |r.value| <= |path| + maxdepth - cur
  {
    if IsComplete(Last(path)) then Some(path)
    else if cur == maxdepth then None
    else DfsChildren(path, PossibleSwaps(Last(path)), cur, maxdepth)
  }

  /** The for loop of dfs over the possible moves: the first child whose search succeeds. */
  function DfsChildren(path: seq<Board>, moves: seq<int>, cur: int, maxdepth: int): (r: Option<seq<Board>>)
    requires |path| >= 1 && Valid(Last(path)) && cur < maxdepth
    requires forall m :: m in moves ==> m in PossibleSwaps(Last(path))
    decreases maxdepth - cur, 0, |moves|
    ensures r.Some? ==> |path| < |r.value| <= |path| + maxdepth - cur
  {
    if moves == [] then None
    else
      var result := Dfs(path + [Child(Last(path), moves[0])], cur + 1, maxdepth);
      if result.Some? then result else DfsChildren(path, moves[1..], cur, maxdepth)
  }

  /** Whatever dfs returns extends `path` by legal moves and ends on a complete board. */
  lemma {:induction false} DfsSound(path: seq<Board>, cur: int, maxdepth: int)
    requires |path| >= 1 && Valid(Last(path)) && cur <= maxdepth
    ensures Dfs(path, cur, maxdepth).Some? ==> SolvesFrom(Dfs(path, cur, maxdepth).value, path)
    decreases maxdepth - cur, 1, 0
  {
    if IsComplete(Last(path)) {
      assert path[..|path|] == path;
    } else if cur < maxdepth {
      DfsChildrenSound(path, PossibleSwaps(Last(path)), cur, maxdepth);
    }
  }

  lemma {:induction false} DfsChildrenSound(path: seq<Board>, moves: seq<int>, cur: int, maxdepth: int)
    requires |path| >= 1 && Valid(Last(path)) && cur < maxdepth
    requires forall m :: m in moves ==> m in PossibleSwaps(Last(path))
    ensures DfsChildren(path, moves, cur, maxdepth).Some? ==> SolvesFrom(DfsChildren(path, moves, cur, maxdepth).value, path)
    decreases maxdepth - cur, 0, |moves|
  {
    if moves != [] {
      var next := Child(Last(path), moves[0]);
      var result := Dfs(path + [next], cur + 1, maxdepth);
      if result.Some? {
        DfsSound(path + [next], cur + 1, maxdepth);
        SolvesFromShorter(result.value, path, next);
      } else {
        DfsChildrenSound(path, moves[1..], cur, maxdepth);
      }
    }
  }

  /** The loop over moves succeeds as soon as the search below one of the moves does. */
  lemma {:induction false} DfsChildrenFinds(path: seq<Board>, moves: seq<int>, cur: int, maxdepth: int, v: int)
    requires |path| >= 1 && Valid(Last(path)) && cur < maxdepth
    requires forall m :: m in moves ==> m in PossibleSwaps(Last(path))
    requires v in moves && v in PossibleSwaps(Last(path))
    requires Dfs(path + [Child(Last(path), v)], cur + 1, maxdepth).Some?
    ensures DfsChildren(path, moves, cur, maxdepth).Some?
    decreases |moves|
  {
    if moves[0] != v {
      DfsChildrenFinds(path, moves[1..], cur, maxdepth, v);
    }
  }

  lemma LegalFromTail(q: seq<Board>)
    requires |q| >= 1 && LegalFrom(q, 0)
    ensures LegalFrom(q[1..], 0)
  {
    var rest := q[1..];
    forall i | 0 <= i < |rest| - 1 ensures Step(rest[i], rest[i + 1]) {
      assert Step(q[i + 1], q[i + 2]);
    }
  }

  /** The moves, played one after another from `b`, are all possible and end on a complete board. */
  ghost predicate SolvedBy(b: Board, moves: seq<int>)
    requires Valid(b)
    decreases |moves|
  {
    if moves == [] then IsComplete(b)
    else moves[0] in PossibleSwaps(b) && SolvedBy(Child(b, moves[0]), moves[1..])
  }

  /**
   * dfs misses nothing within its depth: if some moves solve the last board
   * in at most `maxdepth - cur` moves, dfs finds a solution.
   */
  lemma {:induction false} DfsFindsReachableGoal(path: seq<Board>, cur: int, maxdepth: int, moves: seq<int>)
    requires |path| >= 1 && Valid(Last(path)) && cur <= maxdepth
    requires SolvedBy(Last(path), moves) && |moves| <= maxdepth - cur
    ensures Dfs(path, cur, maxdepth).Some?
    decreases maxdepth - cur
  {
    if !IsComplete(Last(path)) {
      var next := FirstSolvingMove(path, cur, maxdepth, moves);
      DfsFindsReachableGoal(path + [next], cur + 1, maxdepth, moves[1..]);
      DfsFindsThroughChild(path, cur, maxdepth, moves[0], next);
    }
  }

  /** From an incomplete board the first of the solving moves leads to a board the remaining moves solve. */
  lemma FirstSolvingMove(path: seq<Board>, cur: int, maxdepth: int, moves: seq<int>) returns (next: Board)
    requires |path| >= 1 && Valid(Last(path)) && !IsComplete(Last(path))
    requires SolvedBy(Last(path), moves) && |moves| <= maxdepth - cur
    ensures moves != [] && cur < maxdepth && moves[0] in PossibleSwaps(Last(path))
    ensures next == Child(Last(path), moves[0]) && Valid(next) && Last(path + [next]) == next
    ensures SolvedBy(next, moves[1..]) && |moves[1..]| <= maxdepth - (cur + 1)
  {
    next := Child(Last(path), moves[0]);
  }

  /** dfs succeeds on an incomplete board as soon as its search below one possible move does. */
  lemma DfsFindsThroughChild(path: seq<Board>, cur: int, maxdepth: int, v: int, next: Board)
    requires |path| >= 1 && Valid(Last(path)) && cur < maxdepth && !IsComplete(Last(path))
    requires v in PossibleSwaps(Last(path)) && next == Child(Last(path), v)
    requires Dfs(path + [next], cur + 1, maxdepth).Some?
    ensures Dfs(path, cur, maxdepth).Some?
  {
    DfsChildrenFinds(path, PossibleSwaps(Last(path)), cur, maxdepth, v);
  }

  /** The first move of a legal path of two boards or more, and the legal path that remains. */
  lemma FirstMove(q: seq<Board>) returns (v: int)
    requires |q| >= 2 && LegalFrom(q, 0)
    ensures Valid(q[0]) && v in PossibleSwaps(q[0]) && Child(q[0], v) == q[1]
    ensures q[1..][0] == q[1] && LegalFrom(q[1..], 0) && Last(q[1..]) == Last(q)
  {
    assert Step(q[0], q[1]);
    v :| v in PossibleSwaps(q[0]) && Swap(q[0], v) == Some(q[1]);
    LegalFromTail(q);
  }

  /** A legal path to a complete board spells out moves that solve its first board. */
  lemma {:induction false} PathMoves(q: seq<Board>) returns (moves: seq<int>)
    requires |q| >= 1 && Valid(q[0]) && LegalFrom(q, 0) && IsComplete(Last(q))
    ensures |moves| == |q| - 1 && SolvedBy(q[0], moves)
    decreases |q|
  {
    if |q| == 1 {
      moves := [];
    } else {
      var v := FirstMove(q);
      var rest := PathMoves(q[1..]);
      moves := [v] + rest;
      assert moves[0] == v && moves[1..] == rest;
    }
  }

  /** The limits iddfs tries from `limit` on: the first path dfs finds, if any. */
  function Deepening(start: Board, limit: int): (r: Option<seq<Board>>)
    requires Valid(start) && 5 <= limit <= 200
    decreases 200 - limit
  {
    if limit == 200 then None
    else
      var result := Dfs([start], 1, limit);
      if result.Some? then result else Deepening(start, limit + 1)
  }

  /** A path from iddfs solves the start board and is at most 199 boards long. */
  lemma {:induction false} DeepeningSound(start: Board, limit: int)
    requires Valid(start) && 5 <= limit <= 200
    ensures Deepening(start, limit).Some? ==>
              SolvesFrom(Deepening(start, limit).value, [start]) && |Deepening(start, limit).value| <= 199
    decreases 200 - limit
  {
    if limit < 200 {
      assert Last([start]) == start;
      DfsSound([start], 1, limit);
      DeepeningSound(start, limit + 1);
    }
  }

  /** iddfs returns a path whenever dfs succeeds at one of the limits it tries. */
  lemma {:induction false} DeepeningFinds(start: Board, limit: int, l: int)
    requires Valid(start) && 5 <= limit <= l < 200 && Dfs([start], 1, l).Some?
    ensures Deepening(start, limit).Some?
    decreases 200 - limit
  {
    if limit < l {
      DeepeningFinds(start, limit + 1, l);
    }
  }

  /** The path iddfs returns is the one dfs finds at the smallest successful limit. */
  lemma {:induction false} DeepeningFirstSuccess(start: Board, limit: int, l: int)
    requires Valid(start) && 5 <= limit <= l < 200 && Dfs([start], 1, l).Some?
    requires forall k :: limit <= k < l ==> Dfs([start], 1, k).None?
    ensures Deepening(start, limit) == Dfs([start], 1, l)
    decreases 200 - limit
  {
    if limit < l {
      assert Dfs([start], 1, limit).None?;
      DeepeningFirstSuccess(start, limit + 1, l);
    }
  }

  /** An already complete start board is returned as the one-board path. */
  lemma StartCompleteDeepening(start: Board)
    requires Valid(start) && IsComplete(start)
    ensures Deepening(start, 5) == Some([start])
  {
    assert Last([start]) == start;
  }

  /** iddfs: dfs from the start board with limits 5 .. 199, returning the first path found. */
  method Iddfs(start: Board) returns (r: Option<seq<Board>>)
    requires Valid(start)
    ensures r == Deepening(start, 5)
  {
    for limit := 5 to 200
      invariant Deepening(start, limit) == Deepening(start, 5)
    {
      var result := Dfs([start], 1, limit);
      if result.Some? {
        return result;
      }
    }
    return None;
  }

  /**
   * iddfs is complete up to its last limit: a board that a legal path of at
   * most 198 moves brings to a complete board gets a solution from iddfs.
   */
  lemma IddfsFindsShortSolutions(start: Board, q: seq<Board>)
    requires Valid(start)
    requires |q| >= 1 && q[0] == start && LegalFrom(q, 0) && IsComplete(Last(q)) && |q| <= 199
    ensures Deepening(start, 5).Some?
  {
    var l := if |q| < 5 then 5 else |q|;
    var moves := PathMoves(q);
    DfsFindsReachableGoal([start], 1, l, moves);
    DeepeningFinds(start, 5, l);
  }
}
