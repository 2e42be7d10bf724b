/**
 * The best-first "beamlike" search and its bounded lookahead (beamlike and
 * dfs_lookahead, solver.py).
 *
 * Boards are identified by their tile sequence, which stands for the
 * board's hash. `entropies` maps a signature to the cost the lookahead gave
 * it, `explored` maps a signature to its board. The heuristic is the
 * parameter `h` (mdist_entropy in the source by default), and the values of
 * random.random() are the oracle `draws`, read one per candidate child.
 */
module Beam {
  import opened Wrappers
  import opened Puzzle
  import opened Heuristics
  import opened DepthFirst

  /** The starting value of min_cost in dfs_lookahead. */
  const NoCost := 999999999
  /** beamlike calls dfs_lookahead with depths 1 and 6. */
  const LookaheadDepth := 6
  /** The annealing argument of beamlike's temperature call. */
  const Annealing := 10000.0

  function Min(a: int, b: int): (m: int)
    ensures m <= a && m <= b && (m == a || m == b)
  {
    if a <= b then a else b
  }

  // ------------------------------------------------------------------------
  // dfs_lookahead
  // ------------------------------------------------------------------------

  /** dfs_lookahead: the best cost reachable from `b` within `maxdepth - cur` further moves. */
  function Lookahead(b: Board, cur: int, maxdepth: int, explored: map<seq<int>, Board>, h: Board -> int): (r: int)
    requires Valid(b) && cur <= maxdepth
    decreases maxdepth - cur, 1, 0
    ensures (forall x :: 0 <= h(x)) ==> 0 <= r
  {
    if IsComplete(b) then 0
    else if b.tiles in explored then h(explored[b.tiles])
    else if cur == maxdepth then h(b)
    else LookaheadChildren(b, PossibleSwaps(b), cur, maxdepth, explored, h)
  }

  /** The loop of dfs_lookahead: min_cost over the children reached by `moves`. */
  function LookaheadChildren(b: Board, moves: seq<int>, cur: int, maxdepth: int,
                             explored: map<seq<int>, Board>, h: Board -> int): (r: int)
    requires Valid(b) && cur < maxdepth
    requires forall m :: m in moves ==> m in PossibleSwaps(b)
    decreases maxdepth - cur, 0, |moves|
    ensures r <= NoCost
    ensures (forall x :: 0 <= h(x)) ==> 0 <= r
  {
    if moves == [] then NoCost
    else Min(Lookahead(Child(b, moves[0]), cur + 1, maxdepth, explored, h),
             LookaheadChildren(b, moves[1..], cur, maxdepth, explored, h))
  }

  /** min_cost is at most the cost of every child. */
  lemma {:induction false} LookaheadChildrenBelow(b: Board, moves: seq<int>, cur: int, maxdepth: int,
                                                  explored: map<seq<int>, Board>, h: Board -> int)
    requires Valid(b) && cur < maxdepth
    requires forall m :: m in moves ==> m in PossibleSwaps(b)
    ensures forall m :: m in moves ==>
              LookaheadChildren(b, moves, cur, maxdepth, explored, h) <= Lookahead(Child(b, m), cur + 1, maxdepth, explored, h)
    decreases |moves|
  {
    if moves != [] {
      LookaheadChildrenBelow(b, moves[1..], cur, maxdepth, explored, h);
      assert forall m :: m in moves ==> m == moves[0] || m in moves[1..];
    }
  }

  /** min_cost is the cost of some child, or the initial 999999999 when that is smaller or there is no child. */
  lemma {:induction false} LookaheadChildrenAttained(b: Board, moves: seq<int>, cur: int, maxdepth: int,
                                                     explored: map<seq<int>, Board>, h: Board -> int)
    requires Valid(b) && cur < maxdepth
    requires forall m :: m in moves ==> m in PossibleSwaps(b)
    ensures LookaheadChildren(b, moves, cur, maxdepth, explored, h) == NoCost ||
            exists m :: m in moves &&
              LookaheadChildren(b, moves, cur, maxdepth, explored, h) == Lookahead(Child(b, m), cur + 1, maxdepth, explored, h)
    decreases |moves|
  {
    if moves != [] {
      var rest := moves[1..];
      LookaheadChildrenAttained(b, rest, cur, maxdepth, explored, h);
      var r := LookaheadChildren(b, moves, cur, maxdepth, explored, h);
      if r != NoCost && r != Lookahead(Child(b, moves[0]), cur + 1, maxdepth, explored, h) {
        var m :| m in rest && r == Lookahead(Child(b, m), cur + 1, maxdepth, explored, h);
        assert m in moves;
      }
    }
  }

  /**
   * One move from the goal the lookahead is 0, for a heuristic that is never
   * negative and a board not yet explored.
   */
  lemma LookaheadOneMoveFromGoal(b: Board, cur: int, maxdepth: int, explored: map<seq<int>, Board>,
                                 h: Board -> int, m: int)
    requires Valid(b) && cur < maxdepth && !IsComplete(b) && b.tiles !in explored
    requires m in PossibleSwaps(b) && IsComplete(Child(b, m))
    requires forall x :: 0 <= h(x)
    ensures Lookahead(b, cur, maxdepth, explored, h) == 0
  {
    LookaheadChildrenBelow(b, PossibleSwaps(b), cur, maxdepth, explored, h);
  }

  // ------------------------------------------------------------------------
  // the expansion of one parent board
  // ------------------------------------------------------------------------

  /** The two dictionaries of beamlike and the number of random draws used so far. */
  datatype SearchState = SearchState(entropies: map<seq<int>, int>, explored: map<seq<int>, Board>, drawn: nat)

  /**
   * One turn of beamlike's for loop: a child not yet explored is registered,
   * with its lookahead cost, when the next draw is at least `thresh`, the
   * temperature beamlike computes from its tick count; each child not yet
   * explored uses up one draw.
   */
  function Register(parent: Board, m: int, f: SearchState, thresh: real, h: Board -> int, draws: nat -> real): (r: SearchState)
    requires Valid(parent) && m in PossibleSwaps(parent)
  {
    var working := Child(parent, m);
    var cost := Lookahead(working, 1, LookaheadDepth, f.explored, h);
    if working.tiles in f.explored then f
    else if draws(f.drawn) >= thresh then
      SearchState(f.entropies[working.tiles := cost], f.explored[working.tiles := working], f.drawn + 1)
    else SearchState(f.entropies, f.explored, f.drawn + 1)
  }

  /** A turn either changes neither dictionary or files the new child under its tiles in both. */
  lemma RegisterCases(parent: Board, m: int, f: SearchState, thresh: real, h: Board -> int, draws: nat -> real)
    requires Valid(parent) && m in PossibleSwaps(parent)
    ensures var r := Register(parent, m, f, thresh, h, draws);
      var c := Child(parent, m);
      r.drawn >= f.drawn &&
      ((r.entropies == f.entropies && r.explored == f.explored) ||
       (c.tiles !in f.explored && r.explored == f.explored[c.tiles := c] &&
        c.tiles in r.entropies && r.entropies == f.entropies[c.tiles := r.entropies[c.tiles]])) &&
      (draws(f.drawn) >= thresh ==> c.tiles in r.explored) &&
      (draws(f.drawn) < thresh ==> r.entropies == f.entropies && r.explored == f.explored)
  {
  }

  /** A turn keeps every explored board where it was. */
  lemma RegisterKeepsExplored(parent: Board, m: int, f: SearchState, thresh: real, h: Board -> int, draws: nat -> real)
    requires Valid(parent) && m in PossibleSwaps(parent)
    ensures var r := Register(parent, m, f, thresh, h, draws);
      forall k :: k in f.explored ==> k in r.explored && r.explored[k] == f.explored[k]
  {
    var r := Register(parent, m, f, thresh, h, draws);
    var c := Child(parent, m);
    forall k | k in f.explored ensures k in r.explored && r.explored[k] == f.explored[k] {
      if r.explored != f.explored {
        assert r.explored == f.explored[c.tiles := c] && k != c.tiles;
      }
    }
  }

  /** A turn keeps every recorded cost, and `entropies` inside `explored`. */
  lemma RegisterKeepsCosts(parent: Board, m: int, f: SearchState, thresh: real, h: Board -> int, draws: nat -> real)
    requires Valid(parent) && m in PossibleSwaps(parent)
    requires f.entropies.Keys <= f.explored.Keys
    ensures var r := Register(parent, m, f, thresh, h, draws);
      r.entropies.Keys <= r.explored.Keys &&
      forall k :: k in f.entropies ==> k in r.entropies && r.entropies[k] == f.entropies[k]
  {
    var r := Register(parent, m, f, thresh, h, draws);
    var c := Child(parent, m);
    forall k | k in f.entropies ensures k in r.entropies && r.entropies[k] == f.entropies[k] {
      if r.entropies != f.entropies {
        assert k in f.explored && c.tiles !in f.explored;
        assert r.entropies == f.entropies[c.tiles := r.entropies[c.tiles]] && k != c.tiles;
      }
    }
  }

  /** The for loop of beamlike over the parent's moves. */
  function Expand(parent: Board, moves: seq<int>, f: SearchState, thresh: real, h: Board -> int, draws: nat -> real): (r: SearchState)
    requires Valid(parent) && forall m :: m in moves ==> m in PossibleSwaps(parent)
    decreases |moves|
  {
    if moves == [] then f
    else Expand(parent, moves[1..], Register(parent, moves[0], f, thresh, h, draws), thresh, h, draws)
  }

  /** Expansion never drops or changes an explored board. */
  lemma {:induction false} ExpandKeepsExplored(parent: Board, moves: seq<int>, f: SearchState, thresh: real, h: Board -> int, draws: nat -> real)
    requires Valid(parent) && forall m :: m in moves ==> m in PossibleSwaps(parent)
    ensures var r := Expand(parent, moves, f, thresh, h, draws);
      forall k :: k in f.explored ==> k in r.explored && r.explored[k] == f.explored[k]
    decreases |moves|
  {
    if moves != [] {
      var next := Register(parent, moves[0], f, thresh, h, draws);
      RegisterKeepsExplored(parent, moves[0], f, thresh, h, draws);
      ExpandKeepsExplored(parent, moves[1..], next, thresh, h, draws);
    }
  }

  /** Expansion never drops or changes a recorded cost. */
  lemma {:induction false} ExpandKeepsCosts(parent: Board, moves: seq<int>, f: SearchState, thresh: real, h: Board -> int, draws: nat -> real)
    requires Valid(parent) && forall m :: m in moves ==> m in PossibleSwaps(parent)
    requires f.entropies.Keys <= f.explored.Keys
    ensures var r := Expand(parent, moves, f, thresh, h, draws);
      forall k :: k in f.entropies ==> k in r.entropies && r.entropies[k] == f.entropies[k]
    decreases |moves|
  {
    if moves != [] {
      var next := Register(parent, moves[0], f, thresh, h, draws);
      RegisterKeepsCosts(parent, moves[0], f, thresh, h, draws);
      ExpandKeepsCosts(parent, moves[1..], next, thresh, h, draws);
    }
  }

  /** Expansion never drops or changes an explored board or a recorded cost. */
  lemma ExpandKeeps(parent: Board, moves: seq<int>, f: SearchState, thresh: real, h: Board -> int, draws: nat -> real)
    requires Valid(parent) && forall m :: m in moves ==> m in PossibleSwaps(parent)
    requires f.entropies.Keys <= f.explored.Keys
    ensures var r := Expand(parent, moves, f, thresh, h, draws);
      (forall k :: k in f.explored ==> k in r.explored && r.explored[k] == f.explored[k]) &&
      (forall k :: k in f.entropies ==> k in r.entropies && r.entropies[k] == f.entropies[k])
  {
    ExpandKeepsExplored(parent, moves, f, thresh, h, draws);
    ExpandKeepsCosts(parent, moves, f, thresh, h, draws);
  }

  /** Expansion adds the same new signatures to both dictionaries, so `entropies` stays inside `explored`. */
  lemma {:induction false} ExpandNewKeys(parent: Board, moves: seq<int>, f: SearchState, thresh: real, h: Board -> int, draws: nat -> real)
    requires Valid(parent) && forall m :: m in moves ==> m in PossibleSwaps(parent)
    requires f.entropies.Keys <= f.explored.Keys
    ensures var r := Expand(parent, moves, f, thresh, h, draws);
      r.entropies.Keys <= r.explored.Keys &&
      forall k :: (k in r.entropies && k !in f.entropies) <==> (k in r.explored && k !in f.explored)
    decreases |moves|
  {
    if moves != [] {
      var next := Register(parent, moves[0], f, thresh, h, draws);
      RegisterCases(parent, moves[0], f, thresh, h, draws);
      ExpandNewKeys(parent, moves[1..], next, thresh, h, draws);
      ExpandKeeps(parent, moves[1..], next, thresh, h, draws);
    }
  }

  /** Both dictionaries grow by the same number of entries. */
  lemma ExpandGrowsEqually(parent: Board, moves: seq<int>, f: SearchState, thresh: real, h: Board -> int, draws: nat -> real)
    requires Valid(parent) && forall m :: m in moves ==> m in PossibleSwaps(parent)
    requires f.entropies.Keys <= f.explored.Keys
    ensures var r := Expand(parent, moves, f, thresh, h, draws);
      |r.entropies| - |f.entropies| == |r.explored| - |f.explored|
  {
    var r := Expand(parent, moves, f, thresh, h, draws);
    ExpandKeeps(parent, moves, f, thresh, h, draws);
    ExpandNewKeys(parent, moves, f, thresh, h, draws);
    var e0, e1, x0, x1 := f.entropies.Keys, r.entropies.Keys, f.explored.Keys, r.explored.Keys;
    assert e0 <= e1 && x0 <= x1;
    assert e1 - e0 == x1 - x0 by {
      forall k | k in e1 - e0 ensures k in x1 - x0 {
        assert k in r.entropies && k !in f.entropies;
      }
      forall k | k in x1 - x0 ensures k in e1 - e0 {
        assert k in r.explored && k !in f.explored;
      }
    }
    SameGrowth(e0, e1, x0, x1);
  }

  /** Two sets that each grow by the same new members grow by the same count. */
  lemma SameGrowth(e0: set<seq<int>>, e1: set<seq<int>>, x0: set<seq<int>>, x1: set<seq<int>>)
    requires e0 <= e1 && x0 <= x1 && e1 - e0 == x1 - x0
    ensures |e1| - |e0| == |x1| - |x0|
  {
    SubsetCard(e0, e1);
    SubsetCard(x0, x1);
  }

  /** A board one legal move away from `parent`, linked back to it. */
  ghost predicate ChildOf(c: Board, parent: Board)
  {
    Valid(c) && c.n == parent.n && c.parent == Some(parent) && Step(parent, c)
  }

  /** Every board expansion registers is a child of the parent, filed under its own tiles. */
  lemma {:induction false} ExpandChildren(parent: Board, moves: seq<int>, f: SearchState, thresh: real, h: Board -> int, draws: nat -> real)
    requires Valid(parent) && forall m :: m in moves ==> m in PossibleSwaps(parent)
    requires f.entropies.Keys <= f.explored.Keys
    ensures var r := Expand(parent, moves, f, thresh, h, draws);
      forall k :: k in r.explored && k !in f.explored ==> r.explored[k].tiles == k && ChildOf(r.explored[k], parent)
    decreases |moves|
  {
    if moves != [] {
      var next := Register(parent, moves[0], f, thresh, h, draws);
      RegisterCases(parent, moves[0], f, thresh, h, draws);
      ExpandChildren(parent, moves[1..], next, thresh, h, draws);
      ExpandKeeps(parent, moves[1..], next, thresh, h, draws);
      assert forall k :: k in next.explored && k !in f.explored ==> next.explored[k] == Child(parent, moves[0]);
    }
  }

  /**
   * When no draw falls below the threshold every child ends up explored; as the
   * temperature stays below 1, draws of at least 1 always do this.
   */
  lemma {:induction false} ExpandAcceptsAll(parent: Board, moves: seq<int>, f: SearchState, thresh: real, h: Board -> int, draws: nat -> real)
    requires Valid(parent) && forall m :: m in moves ==> m in PossibleSwaps(parent)
    requires f.entropies.Keys <= f.explored.Keys
    requires forall i :: draws(i) >= thresh
    ensures forall m :: m in moves ==> Child(parent, m).tiles in Expand(parent, moves, f, thresh, h, draws).explored
    decreases |moves|
  {
    if moves != [] {
      var next := Register(parent, moves[0], f, thresh, h, draws);
      RegisterCases(parent, moves[0], f, thresh, h, draws);
      ExpandAcceptsAll(parent, moves[1..], next, thresh, h, draws);
      ExpandKeeps(parent, moves[1..], next, thresh, h, draws);
    }
  }

  /** When every draw falls below the threshold nothing is registered; only the draw count moves. */
  lemma {:induction false} ExpandRejectsAll(parent: Board, moves: seq<int>, f: SearchState, thresh: real, h: Board -> int, draws: nat -> real)
    requires Valid(parent) && forall m :: m in moves ==> m in PossibleSwaps(parent)
    requires forall i :: draws(i) < thresh
    ensures var r := Expand(parent, moves, f, thresh, h, draws);
      r.entropies == f.entropies && r.explored == f.explored
    decreases |moves|
  {
    if moves != [] {
      var next := Register(parent, moves[0], f, thresh, h, draws);
      RegisterCases(parent, moves[0], f, thresh, h, draws);
      ExpandRejectsAll(parent, moves[1..], next, thresh, h, draws);
    }
  }

  /**
   * The body of beamlike's inner for loop, for the move `m`; `thresh` is the
   * temperature of the current tick count, which the loop recomputes for
   * each new child but which does not change within the loop.
   */
  method RegisterChild(parent: Board, m: int, entropies: map<seq<int>, int>, explored: map<seq<int>, Board>,
                       thresh: real, drawn: nat, h: Board -> int, draws: nat -> real)
    returns (ents: map<seq<int>, int>, expl: map<seq<int>, Board>, used: nat)
    requires Valid(parent) && m in PossibleSwaps(parent)
    ensures SearchState(ents, expl, used) == Register(parent, m, SearchState(entropies, explored, drawn), thresh, h, draws)
  {
    ents, expl, used := entropies, explored, drawn;
    SwapIffPossible(parent, m);
    var r := ApplySwap(parent, m);
    var working := r.value;
    assert working == Child(parent, m);
    var cost := Lookahead(working, 1, LookaheadDepth, expl, h);
    if working.tiles !in expl {
      if draws(used) >= thresh {
        ents := ents[working.tiles := cost];
        expl := expl[working.tiles := working];
      }
      used := used + 1;
    }
  }

  /** The inner for loop of beamlike over the parent's possible swaps. */
  method ExpandParent(parent: Board, swaps: seq<int>, entropies: map<seq<int>, int>, explored: map<seq<int>, Board>,
                      thresh: real, drawn: nat, h: Board -> int, draws: nat -> real)
    returns (ents: map<seq<int>, int>, expl: map<seq<int>, Board>, used: nat)
    requires Valid(parent) && forall m :: m in swaps ==> m in PossibleSwaps(parent)
    ensures SearchState(ents, expl, used) == Expand(parent, swaps, SearchState(entropies, explored, drawn), thresh, h, draws)
  {
    ents, expl, used := entropies, explored, drawn;
    for i := 0 to |swaps|
      invariant Expand(parent, swaps[i..], SearchState(ents, expl, used), thresh, h, draws) ==
                Expand(parent, swaps, SearchState(entropies, explored, drawn), thresh, h, draws)
    {
      assert swaps[i..][0] == swaps[i] && swaps[i..][1..] == swaps[i + 1..];
      ents, expl, used := RegisterChild(parent, swaps[i], ents, expl, thresh, used, h, draws);
    }
  }

  // ------------------------------------------------------------------------
  // picking the parent
  // ------------------------------------------------------------------------

  /** Every finite non-empty set of signatures has one of least cost. */
  lemma {:induction false} MinimumExists(m: map<seq<int>, int>, s: set<seq<int>>)
    requires s != {} && s <= m.Keys
    ensures exists key :: key in s && forall k :: k in s ==> m[key] <= m[k]
    decreases |s|
  {
    var k0 :| k0 in s;
    var rest := s - {k0};
    if exists k1 :: k1 in s && k1 != k0 {
      var k1 :| k1 in s && k1 != k0;
      assert k1 in rest;
      MinimumExists(m, rest);
      var key :| key in rest && forall k :: k in rest ==> m[key] <= m[k];
      var best := if m[k0] < m[key] then k0 else key;
      forall k | k in s ensures m[best] <= m[k] {
        if k != k0 {
          assert k in rest;
        }
      }
      assert best in s;
    } else {
      forall k | k in s ensures m[k0] <= m[k] {
        assert k == k0;
      }
    }
  }

  /** The first entry of the sorted items: some signature of least cost (ties are broken arbitrarily). */
  method PickMinimum(entropies: map<seq<int>, int>) returns (key: seq<int>)
    requires |entropies| > 0
    ensures key in entropies && forall k :: k in entropies ==> entropies[key] <= entropies[k]
  {
    assert entropies.Keys != {};
    MinimumExists(entropies, entropies.Keys);
    key :| key in entropies && forall k :: k in entropies ==> entropies[key] <= entropies[k];
  }

  // ------------------------------------------------------------------------
  // beamlike
  // ------------------------------------------------------------------------

  /** `b` is reached from `start` through its parent links, each one a legal move. */
  ghost predicate Descends(b: Board, start: Board)
    decreases b
  {
    b == start || (b.parent.Some? && Step(b.parent.value, b) && Descends(b.parent.value, start))
  }

  /** The solution the parent links spell out: from `start` to `b`, one legal move at a time. */
  ghost function PathTo(b: Board, start: Board): (p: seq<Board>)
    requires Descends(b, start)
    decreases b
    ensures |p| >= 1 && p[0] == start && Last(p) == b
  {
    if b == start then [start] else PathTo(b.parent.value, start) + [b]
  }

  /** Consecutive boards of the path the parent links spell out are one legal move apart. */
  lemma {:induction false} PathToLegal(b: Board, start: Board)
    requires Descends(b, start)
    ensures LegalFrom(PathTo(b, start), 0)
    decreases b
  {
    if b != start {
      var q := PathTo(b.parent.value, start);
      PathToLegal(b.parent.value, start);
      var p := PathTo(b, start);
      assert p == q + [b];
      forall k | 0 <= k < |p| - 1 ensures Step(p[k], p[k + 1]) {
        if k < |q| - 1 {
          assert p[k] == q[k] && p[k + 1] == q[k + 1];
        } else {
          assert p[k] == Last(q) == b.parent.value && p[k + 1] == b;
        }
      }
    }
  }

  /** Every sequence of length `len` over [0, m). */
  ghost function AllTiles(len: nat, m: nat): set<seq<int>>
  {
    if len == 0 then {[]}
    else set s, x | s in AllTiles(len - 1, m) && 0 <= x < m :: s + [x]
  }

  lemma {:induction false} InAllTiles(t: seq<int>, m: nat)
    requires forall i :: 0 <= i < |t| ==> 0 <= t[i] < m
    ensures t in AllTiles(|t|, m)
    decreases |t|
  {
    if |t| > 0 {
      var s := t[..|t| - 1];
      InAllTiles(s, m);
      assert t == s + [t[|t| - 1]];
    }
  }

  lemma SubsetCard(a: set<seq<int>>, b: set<seq<int>>)
    requires a <= b
    ensures |b| == |b - a| + |a|
  {
    assert b == (b - a) + a;
    assert (b - a) * a == {};
  }

  /** Growing a set inside a finite universe shrinks what is left of the universe. */
  lemma RemainderShrinks(u: set<seq<int>>, a: set<seq<int>>, b: set<seq<int>>)
    requires a <= b <= u && a != b
    ensures |u - b| < |u - a|
  {
    var x :| x in b && x !in a;
    SubsetCard(u - b, u - a);
    assert x in (u - a) - (u - b);
  }

  /** An explored entry as beamlike files it: a valid board of the start's size, under its own tiles, descended from the start. */
  ghost predicate Filed(explored: map<seq<int>, Board>, k: seq<int>, start: Board)
    requires k in explored
  {
    var b := explored[k];
    b.tiles == k && Valid(b) && b.n == start.n && Descends(b, start)
  }

  /** A complete board beamlike has filed spells out, through its parent links, a solution of the start board. */
  lemma FiledSolution(explored: map<seq<int>, Board>, k: seq<int>, start: Board)
    requires k in explored && Filed(explored, k, start) && IsComplete(explored[k])
    ensures SolvesFrom(PathTo(explored[k], start), [start])
  {
    var p := PathTo(explored[k], start);
    PathToLegal(explored[k], start);
    assert p[..1] == [start];
  }

  /** What beamlike keeps true of its dictionaries: every entry filed, inside the universe of tile sequences. */
  ghost predicate Consistent(ents: map<seq<int>, int>, expl: map<seq<int>, Board>, start: Board, universe: set<seq<int>>)
  {
    ents.Keys <= expl.Keys <= universe &&
    start.tiles in expl && expl[start.tiles] == start &&
    forall k :: k in expl ==> Filed(expl, k, start)
  }

  /**
   * Expanding a filed parent keeps the dictionaries consistent and the parent
   * filed, grows both by the same count, and either leaves `explored` as it
   * was or shrinks what is left of the universe.
   */
  lemma ExpandPreserves(start: Board, universe: set<seq<int>>, parent: Board, swaps: seq<int>, f: SearchState,
                        thresh: real, h: Board -> int, draws: nat -> real)
    requires Valid(parent) && forall m :: m in swaps ==> m in PossibleSwaps(parent)
    requires universe == AllTiles(start.n * start.n, start.n * start.n)
    requires Consistent(f.entropies, f.explored, start, universe)
    requires parent.tiles in f.explored && f.explored[parent.tiles] == parent
    ensures var r := Expand(parent, swaps, f, thresh, h, draws);
      Consistent(r.entropies, r.explored, start, universe) &&
      parent.tiles in r.explored && r.explored[parent.tiles] == parent &&
      |r.entropies| - |f.entropies| == |r.explored| - |f.explored| &&
      (r.explored.Keys == f.explored.Keys || |universe - r.explored.Keys| < |universe - f.explored.Keys|)
  {
    var r := Expand(parent, swaps, f, thresh, h, draws);
    var n := start.n;
    ExpandKeeps(parent, swaps, f, thresh, h, draws);
    ExpandNewKeys(parent, swaps, f, thresh, h, draws);
    ExpandGrowsEqually(parent, swaps, f, thresh, h, draws);
    ExpandChildren(parent, swaps, f, thresh, h, draws);
    assert Filed(f.explored, parent.tiles, start);
    forall k | k in r.explored ensures Filed(r.explored, k, start) && k in universe {
      if k !in f.explored {
        InAllTiles(k, n * n);
      } else {
        assert Filed(f.explored, k, start);
      }
    }
    if r.explored.Keys != f.explored.Keys {
      RemainderShrinks(universe, f.explored.Keys, r.explored.Keys);
    }
  }

  /**
   * One turn of beamlike's while loop: take a least-cost board off
   * `entropies`; unless it is complete, register its children.
   */
  method BeamTurn(start: Board, ghost universe: set<seq<int>>, entropies: map<seq<int>, int>, explored: map<seq<int>, Board>,
                  ticks: nat, drawn: nat, h: Board -> int, draws: nat -> real)
    returns (b: Board, done: bool, ents: map<seq<int>, int>, expl: map<seq<int>, Board>, used: nat)
    requires universe == AllTiles(start.n * start.n, start.n * start.n)
    requires Consistent(entropies, explored, start, universe) && |entropies| > 0
    ensures Consistent(ents, expl, start, universe)
    ensures b.tiles in expl && expl[b.tiles] == b && b.tiles in entropies
    ensures forall k :: k in entropies ==> entropies[b.tiles] <= entropies[k]
    ensures done <==> IsComplete(b)
    ensures done ==> ents == entropies - {b.tiles} && expl == explored
    ensures !done ==> |ents| + 1 - |entropies| == |expl| - |explored|
    ensures !done ==> expl.Keys == explored.Keys || |universe - expl.Keys| < |universe - explored.Keys|
    ensures !done ==> (SearchState(ents, expl, used) ==
                       Expand(b, PossibleSwaps(b), SearchState(entropies - {b.tiles}, explored, drawn),
                              Temperature(ticks as real, Annealing), h, draws))
    ensures b.tiles !in ents
    ensures forall k :: k in explored ==> k in expl && expl[k] == explored[k]
  {
    var key := PickMinimum(entropies);
    b := explored[key];
    ents, expl, used := entropies - {key}, explored, drawn;
    assert ents.Keys == entropies.Keys - {key};
    assert |ents| == |entropies| - 1 by {
      assert ents.Keys + {key} == entropies.Keys;
    }
    done := CheckComplete(b);
    if done {
      return;
    }
    var swaps := CollectPossibleSwaps(b);
    var thresh := Temperature(ticks as real, Annealing);
    assert Filed(explored, key, start);
    ExpandPreserves(start, universe, b, swaps, SearchState(ents, expl, used), thresh, h, draws);
    ExpandKeepsExplored(b, swaps, SearchState(ents, expl, used), thresh, h, draws);
    ExpandNewKeys(b, swaps, SearchState(ents, expl, used), thresh, h, draws);
    ents, expl, used := ExpandParent(b, swaps, ents, expl, thresh, used, h, draws);
  }

  /**
   * beamlike: repeatedly take a least-cost board off `entropies`, stop when it
   * is complete, otherwise register its children. Returns the last board
   * taken and the number of explored boards; the final dictionaries are
   * returned as ghosts to state what the search leaves behind.
   */
  method Beamlike(start: Board, h: Board -> int, draws: nat -> real)
    returns (b: Board, count: nat, ghost entropies: map<seq<int>, int>, ghost explored: map<seq<int>, Board>)
    requires Valid(start)
    ensures IsComplete(b) || entropies == map[]
    ensures count == |explored|
    ensures b.tiles in explored && explored[b.tiles] == b
    ensures entropies.Keys <= explored.Keys
    ensures start.tiles in explored && explored[start.tiles] == start
    ensures forall k :: k in explored ==> Filed(explored, k, start)
    ensures IsComplete(start) ==> b == start && count == 1
  {
    var ents := map[start.tiles := h(start)];
    var expl := map[start.tiles := start];
    var ticks: nat := 0;
    var drawn: nat := 0;
    var n := start.n;
    ghost var universe := AllTiles(n * n, n * n);
    InAllTiles(start.tiles, n * n);
    b := start;
    while |ents| > 0
      invariant Consistent(ents, expl, start, universe)
      invariant b.tiles in expl && expl[b.tiles] == b
      invariant ticks + |ents| == |expl|
      invariant IsComplete(start) ==> ents == map[start.tiles := h(start)] && expl == map[start.tiles := start]
      decreases |universe - expl.Keys|, |ents|
    {
      var done;
      b, done, ents, expl, drawn := BeamTurn(start, universe, ents, expl, ticks, drawn, h, draws);
      if done {
        break;
      }
      ticks := ticks + 1;
    }
    count := |expl|;
    entropies, explored := ents, expl;
  }
}
