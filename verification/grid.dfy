/** The maze as a grid of cells: coordinates, moves, the wall map, the
    neighbour function of `Maze.neighbors`, and walks (replayed action
    sequences) over the grid. */
module MazeGrid {

  /** A cell as (row, column), 0-indexed, rows growing downward. */
  datatype State = Cell(row: int, col: int)

  /** The four axis-aligned moves. */
  datatype Action = Up | Down | Left | Right

  /** The maze after loading: dimensions, wall map, start and goal. */
  datatype Grid = Grid(height: int, width: int, walls: seq<seq<bool>>, start: State, goal: State)

  /** The wall map is `height` rows of `width` booleans. */
  predicate Shaped(g: Grid) {
    && |g.walls| == g.height
    && forall i :: 0 <= i < |g.walls| ==> |g.walls[i]| == g.width
  }

  predicate InBounds(g: Grid, s: State) {
    0 <= s.row < g.height && 0 <= s.col < g.width
  }

  /** A cell the search may stand on: inside the grid and not a wall. */
  predicate Free(g: Grid, s: State)
    requires Shaped(g)
  {
    InBounds(g, s) && !g.walls[s.row][s.col]
  }

  /** What loading a layout establishes: a rectangular wall map, and start
      and goal inside it on cells that are not walls (the start and goal
      markers never set a wall). */
  predicate WellFormed(g: Grid) {
    Shaped(g) && Free(g, g.start) && Free(g, g.goal)
  }

  /** The cell one step away from `s` in direction `a`. */
  function Move(s: State, a: Action): State {
    match a
    case Up => Cell(s.row - 1, s.col)
    case Down => Cell(s.row + 1, s.col)
    case Left => Cell(s.row, s.col - 1)
    case Right => Cell(s.row, s.col + 1)
  }

  /** Position of an action in the fixed examination order up, down, left, right. */
  function Rank(a: Action): nat {
    match a
    case Up => 0
    case Down => 1
    case Left => 2
    case Right => 3
  }

  /** The four candidate moves from `s`, in examination order. */
  function Candidates(s: State): seq<(Action, State)> {
    [(Up, Move(s, Up)), (Down, Move(s, Down)), (Left, Move(s, Left)), (Right, Move(s, Right))]
  }

  predicate RankIncreasing(moves: seq<(Action, State)>) {
    forall i, j :: 0 <= i < j < |moves| ==> Rank(moves[i].0) < Rank(moves[j].0)
  }

  /** The candidates whose target cell is free, in their original order. */
  function KeepFree(g: Grid, cands: seq<(Action, State)>): (r: seq<(Action, State)>)
    requires Shaped(g)
    ensures forall m :: m in r <==> m in cands && Free(g, m.1)
    ensures RankIncreasing(cands) ==> RankIncreasing(r)
    decreases |cands|
  {
    if |cands| == 0 then []
    else
      var rest := KeepFree(g, cands[1..]);
      assert forall m :: m in cands <==> m == cands[0] || m in cands[1..];
      if Free(g, cands[0].1) then [cands[0]] + rest else rest
  }

  /** The moves available from `s`: each target is one step away in the named
      direction and free; every direction whose target is free is present;
      the moves come in the order up, down, left, right, each at most once. */
  function Neighbors(g: Grid, s: State): (r: seq<(Action, State)>)
    requires Shaped(g)
    ensures forall i :: 0 <= i < |r| ==> r[i].1 == Move(s, r[i].0) && Free(g, r[i].1)
    ensures forall a :: (a, Move(s, a)) in r <==> Free(g, Move(s, a))
    ensures RankIncreasing(r)
    ensures |r| <= 4
  {
    var cands := Candidates(s);
    CandidatesComplete(s);
    var r := KeepFree(g, cands);
    assert forall i :: 0 <= i < |r| ==> r[i] in cands;
    RankIncreasingBounded(r);
    r
  }

  /** Every move appears among the candidates, each one step away. */
  lemma CandidatesComplete(s: State)
    ensures forall m :: m in Candidates(s) ==> m.1 == Move(s, m.0)
    ensures forall a :: (a, Move(s, a)) in Candidates(s)
    ensures RankIncreasing(Candidates(s))
  {
    var cands := Candidates(s);
    forall a ensures (a, Move(s, a)) in cands {
      match a
      case Up => assert cands[0] == (a, Move(s, a));
      case Down => assert cands[1] == (a, Move(s, a));
      case Left => assert cands[2] == (a, Move(s, a));
      case Right => assert cands[3] == (a, Move(s, a));
    }
  }

  /** A rank-increasing sequence of moves has at most four entries. */
  lemma RankIncreasingBounded(moves: seq<(Action, State)>)
    requires RankIncreasing(moves)
    ensures |moves| <= 4
  {
    RankAtLeastIndex(moves);
    if |moves| > 0 {
      assert |moves| - 1 <= Rank(moves[|moves| - 1].0);
    }
  }

  /** In a rank-increasing sequence entry i has rank at least i. */
  lemma {:induction false} RankAtLeastIndex(moves: seq<(Action, State)>)
    requires RankIncreasing(moves)
    ensures forall i :: 0 <= i < |moves| ==> i <= Rank(moves[i].0)
    decreases |moves|
  {
    if |moves| > 1 {
      var init := moves[..|moves| - 1];
      assert RankIncreasing(init) by {
        assert forall i :: 0 <= i < |init| ==> init[i] == moves[i];
      }
      RankAtLeastIndex(init);
      assert forall i :: 0 <= i < |init| ==> init[i] == moves[i];
      assert Rank(moves[|moves| - 2].0) < Rank(moves[|moves| - 1].0);
    }
  }

  /** The cells visited by applying `acts` in turn from `from`, excluding
      `from` itself: entry i is one step from entry i-1 (or from `from`)
      in direction acts[i]. */
  function Replay(from: State, acts: seq<Action>): (cells: seq<State>)
    ensures |cells| == |acts|
    ensures forall i :: 0 <= i < |acts| ==> cells[i] == Move(if i == 0 then from else cells[i - 1], acts[i])
    decreases |acts|
  {
    if |acts| == 0 then []
    else
      var next := Move(from, acts[0]);
      [next] + Replay(next, acts[1..])
  }

  /** Where applying `acts` from `from` ends up. */
  function Destination(from: State, acts: seq<Action>): State {
    if |acts| == 0 then from else Replay(from, acts)[|acts| - 1]
  }

  /** Every cell the walk visits is free. */
  predicate ValidPath(g: Grid, from: State, acts: seq<Action>)
    requires Shaped(g)
  {
    var cells := Replay(from, acts);
    forall i :: 0 <= i < |cells| ==> Free(g, cells[i])
  }

  /** `to` can be reached from `from` by a walk over free cells. */
  ghost predicate Reachable(g: Grid, from: State, to: State)
    requires Shaped(g)
  {
    exists acts :: ValidPath(g, from, acts) && Destination(from, acts) == to
  }

  /** A valid walk is a witness for reachability of its destination. */
  lemma WalkReaches(g: Grid, from: State, acts: seq<Action>)
    requires Shaped(g)
    requires ValidPath(g, from, acts)
    ensures Reachable(g, from, Destination(from, acts))
  {
  }

  /** Replaying a walk extended by one action visits the old cells and then
      one more, one step from the old destination. */
  lemma {:induction false} ReplaySnoc(from: State, acts: seq<Action>, a: Action)
    ensures Replay(from, acts + [a]) == Replay(from, acts) + [Move(Destination(from, acts), a)]
    ensures Destination(from, acts + [a]) == Move(Destination(from, acts), a)
    decreases |acts|
  {
    if |acts| > 0 {
      var next := Move(from, acts[0]);
      assert (acts + [a])[1..] == acts[1..] + [a];
      ReplaySnoc(next, acts[1..], a);
      if |acts| > 1 {
        assert Destination(next, acts[1..]) == Destination(from, acts);
      }
    }
  }

  /** Replaying a walk with one action in front: one step, then the rest. */
  lemma ReplayCons(from: State, a: Action, acts: seq<Action>)
    ensures Replay(from, [a] + acts) == [Move(from, a)] + Replay(Move(from, a), acts)
    ensures Destination(from, [a] + acts) == Destination(Move(from, a), acts)
  {
    assert ([a] + acts)[1..] == acts;
  }

  /** Reachability is extended by one free step. */
  lemma ReachableStep(g: Grid, from: State, mid: State, a: Action)
    requires Shaped(g)
    requires Reachable(g, from, mid)
    requires Free(g, Move(mid, a))
    ensures Reachable(g, from, Move(mid, a))
  {
    var acts :| ValidPath(g, from, acts) && Destination(from, acts) == mid;
    ReplaySnoc(from, acts, a);
    assert ValidPath(g, from, acts + [a]);
  }

  /** The cell a walk stands on before its step i. */
  function Before(from: State, cells: seq<State>, i: int): State
    requires 0 <= i <= |cells|
  {
    if i == 0 then from else cells[i - 1]
  }

  /** A walk is valid exactly when each of its steps is one of the moves
      `Neighbors` offers from the cell the walk stands on. */
  lemma ValidPathSteps(g: Grid, from: State, acts: seq<Action>)
    requires Shaped(g)
    ensures ValidPath(g, from, acts) <==>
      forall i :: 0 <= i < |acts| ==>
        (acts[i], Replay(from, acts)[i]) in Neighbors(g, Before(from, Replay(from, acts), i))
  {
    var cells := Replay(from, acts);
    forall i | 0 <= i < |acts|
      ensures Free(g, cells[i]) <==> (acts[i], cells[i]) in Neighbors(g, Before(from, cells, i))
    {
      StepOffered(g, Before(from, cells, i), acts[i], cells[i]);
    }
  }

  /** A move's target is free exactly when `Neighbors` offers the move. */
  lemma StepOffered(g: Grid, s: State, a: Action, t: State)
    requires Shaped(g)
    requires t == Move(s, a)
    ensures Free(g, t) <==> (a, t) in Neighbors(g, s)
  {
  }

  /** A set of cells containing `from` and closed under free steps contains
      the end of every valid walk from `from`. */
  lemma {:induction false} ClosedSetContainsWalks(g: Grid, closed: set<State>, from: State, acts: seq<Action>)
    requires Shaped(g)
    requires from in closed
    requires forall s, a :: s in closed && Free(g, Move(s, a)) ==> Move(s, a) in closed
    requires ValidPath(g, from, acts)
    ensures Destination(from, acts) in closed
    decreases |acts|
  {
    if |acts| > 0 {
      var next := Move(from, acts[0]);
      ReplayCons(from, acts[0], acts[1..]);
      assert [acts[0]] + acts[1..] == acts;
      assert Replay(from, acts)[0] == next;
      assert ValidPath(g, next, acts[1..]) by {
        assert forall i :: 0 <= i < |acts| - 1 ==> Replay(next, acts[1..])[i] == Replay(from, acts)[i + 1];
      }
      ClosedSetContainsWalks(g, closed, next, acts[1..]);
    }
  }

  /** The free cells of the grid. */
  function FreeCells(g: Grid): (cells: set<State>)
    requires Shaped(g)
    ensures forall s :: s in cells <==> Free(g, s)
  {
    set r, c | 0 <= r < g.height && 0 <= c < g.width && !g.walls[r][c] :: Cell(r, c)
  }

  /** All cells of an h-by-w rectangle anchored at (0, 0). */
  function Rect(h: int, w: int): set<State>
    decreases h
  {
    if h <= 0 then {} else Rect(h - 1, w) + Row(h - 1, w)
  }

  /** The cells of row `r` with column in [0, w). */
  function Row(r: int, w: int): set<State>
    decreases w
  {
    if w <= 0 then {} else Row(r, w - 1) + {Cell(r, w - 1)}
  }

  lemma {:induction false} RowMembers(r: int, w: int)
    ensures forall s :: s in Row(r, w) ==> s.row == r && 0 <= s.col < w
    decreases w
  {
    if w > 0 {
      RowMembers(r, w - 1);
    }
  }

  lemma {:induction false} RowSize(r: int, w: nat)
    ensures |Row(r, w)| == w
  {
    if w > 0 {
      RowSize(r, w - 1);
      RowMembers(r, w - 1);
      assert Cell(r, w - 1) !in Row(r, w - 1);
    }
  }

  lemma {:induction false} RectMembers(h: int, w: int)
    ensures forall s :: s in Rect(h, w) <==> 0 <= s.row < h && 0 <= s.col < w
    decreases h
  {
    if h > 0 {
      RectMembers(h - 1, w);
      RowMembers(h - 1, w);
      forall s: State | 0 <= s.row < h && 0 <= s.col < w
        ensures s in Rect(h, w)
      {
        if s.row == h - 1 {
          RowContains(h - 1, w, s.col);
        }
      }
    }
  }

  lemma {:induction false} RowContains(r: int, w: int, c: int)
    requires 0 <= c < w
    ensures Cell(r, c) in Row(r, w)
    decreases w
  {
    if c < w - 1 {
      RowContains(r, w - 1, c);
    }
  }

  /** The h-by-w rectangle has h * w cells. */
  lemma RectSize(h: nat, w: nat)
    ensures |Rect(h, w)| == h * w
  {
    RectSizeSum(h, w);
    AreaIsProduct(h, w);
  }

  /** w added h times. */
  function Area(h: int, w: int): int
    decreases h
  {
    if h <= 0 then 0 else Area(h - 1, w) + w
  }

  lemma {:induction false} RectSizeSum(h: nat, w: nat)
    ensures |Rect(h, w)| == Area(h, w)
  {
    if h > 0 {
      RectSizeSum(h - 1, w);
      RowSize(h - 1, w);
      RectRowDisjoint(h, w);
      DisjointUnionSize(Rect(h - 1, w), Row(h - 1, w));
    }
  }

  /** The top h-1 rows share no cell with row h-1. */
  lemma RectRowDisjoint(h: int, w: int)
    ensures Rect(h - 1, w) !! Row(h - 1, w)
  {
    RectMembers(h - 1, w);
    RowMembers(h - 1, w);
  }

  lemma DisjointUnionSize<T>(a: set<T>, b: set<T>)
    requires a !! b
    ensures |a + b| == |a| + |b|
  {
    assert a * b == {};
  }

  lemma {:induction false} AreaIsProduct(h: nat, w: nat)
    ensures Area(h, w) == h * w
  {
    if h > 0 {
      AreaIsProduct(h - 1, w);
      MulPred(h, w);
    }
  }

  lemma MulPred(h: int, w: int)
    ensures (h - 1) * w + w == h * w
  {
  }

  /** A subset is no larger than its superset. */
  lemma SubsetSize<T>(a: set<T>, b: set<T>)
    requires a <= b
    ensures |a| <= |b|
  {
    assert b == a + (b - a);
  }

  /** There are at most height x width free cells. */
  lemma FreeCellsBound(g: Grid)
    requires Shaped(g)
    ensures |FreeCells(g)| <= g.height * g.width
  {
    if g.height <= 0 || g.width <= 0 {
      if g.height > 0 {
        assert |g.walls[0]| == g.width;
      }
      assert FreeCells(g) == {};
    } else {
      RectSize(g.height, g.width);
      RectMembers(g.height, g.width);
      SubsetSize(FreeCells(g), Rect(g.height, g.width));
    }
  }
}
