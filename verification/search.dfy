/** The graph search of `Maze.solve`: nodes are removed from the frontier
    one at a time, the goal test happens on removal, a removed non-goal
    node is recorded as explored and its free neighbours that are neither
    pending nor explored are pushed as children. Parent links are indices
    into an arena holding the expanded nodes in the order they were
    removed. */
module Search {
  import opened Wrappers
  import opened Sequences
  import opened MazeGrid
  import opened Frontiers

  /** Everything one search carries between iterations. `arena[i]` is the
      i-th expanded node; `numExplored` counts removals. */
  datatype SearchState = SearchState(frontier: Frontier, explored: set<State>, arena: seq<Node>, numExplored: nat)

  /** What one iteration of the search loop does: finds the frontier empty,
      removes the goal node, or expands a node and carries on. */
  datatype StepResult =
    | Exhausted
    | Found(node: Node, after: SearchState)
    | Continue(next: SearchState)

  /** The result of a search. On success, the moves and the visited cells
      from the start (exclusive) to the goal (inclusive). The removal count
      and the explored set are reported either way. */
  datatype Outcome =
    | Solved(actions: seq<Action>, cells: seq<State>, numExplored: nat, explored: set<State>)
    | NoSolution(numExplored: nat, explored: set<State>)

  /** The root node: the start cell, no parent, no action. It needs no arena
      to be sound. */
  function Root(g: Grid): (r: Node)
    ensures r.state == g.start && r.parent.None?
    ensures WellFormed(g) ==> NodeOk(g, [], r, 0)
  {
    Node(g.start, None, None)
  }

  /** A node is sound with respect to an arena when it stands on a free cell
      and either is a root on the start cell or points to an earlier arena
      entry from which its action leads to its state, which is then not the
      start cell. */
  predicate NodeOk(g: Grid, arena: seq<Node>, n: Node, bound: int)
    requires Shaped(g)
  {
    && Free(g, n.state)
    && (n.parent.None? ==> n.state == g.start && n.action.None?)
    && (n.parent.Some? ==>
          && n.state != g.start
          && n.parent.value < bound <= |arena|
          && n.action.Some?
          && n.state == Move(arena[n.parent.value].state, n.action.value))
  }

  /** Every arena entry points only to entries before it. */
  predicate ArenaOk(g: Grid, arena: seq<Node>)
    requires Shaped(g)
  {
    forall i :: 0 <= i < |arena| ==> NodeOk(g, arena, arena[i], i)
  }

  /** No two nodes carry the same state. */
  predicate NoDupStates(nodes: seq<Node>) {
    forall i, j :: 0 <= i < j < |nodes| ==> nodes[i].state != nodes[j].state
  }

  /** The arena holds each explored cell at most once, and nothing else. */
  predicate ArenaExplored(arena: seq<Node>, explored: set<State>) {
    && NoDupStates(arena)
    && forall i :: 0 <= i < |arena| ==> arena[i].state in explored
  }

  /** Every free step out of an explored cell leads to a cell that is
      explored or pending. */
  predicate Closed(g: Grid, explored: set<State>, f: Frontier)
    requires Shaped(g)
  {
    forall s, a :: s in explored && Free(g, Move(s, a)) ==> Move(s, a) in explored || ContainsState(f, Move(s, a))
  }

  /** Every cell of the set is free. */
  predicate AllFree(g: Grid, cells: set<State>)
    requires Shaped(g)
  {
    forall s :: s in cells ==> Free(g, s)
  }

  /** Every pending node is sound with respect to the arena. */
  predicate FrontierSound(g: Grid, arena: seq<Node>, f: Frontier)
    requires Shaped(g)
  {
    forall i :: 0 <= i < |f.items| ==> NodeOk(g, arena, f.items[i], |arena|)
  }

  /** No pending node carries an explored state. */
  predicate Fresh(f: Frontier, explored: set<State>) {
    forall i :: 0 <= i < |f.items| ==> f.items[i].state !in explored
  }

  /** Every explored or pending cell is reachable from the start. */
  ghost predicate AllReachable(g: Grid, explored: set<State>, f: Frontier)
    requires Shaped(g)
  {
    && (forall s :: s in explored ==> Reachable(g, g.start, s))
    && (forall i :: 0 <= i < |f.items| ==> Reachable(g, g.start, f.items[i].state))
  }

  /** The loop invariant of the search. */
  ghost predicate Inv(g: Grid, st: SearchState) {
    && WellFormed(g)
    && AllFree(g, st.explored)
    && g.goal !in st.explored
    && st.numExplored == |st.explored|
    && (|st.explored| == 0 ==> st.frontier.items == [Root(g)])
    && (|st.explored| > 0 ==> g.start in st.explored)
    && ArenaOk(g, st.arena)
    && ArenaExplored(st.arena, st.explored)
    && FrontierSound(g, st.arena, st.frontier)
    && NoDupStates(st.frontier.items)
    && Fresh(st.frontier, st.explored)
    && Closed(g, st.explored, st.frontier)
    && AllReachable(g, st.explored, st.frontier)
  }

  /** The state before the first iteration: a frontier holding only the
      root, nothing explored, nothing counted. */
  function Initial(g: Grid, policy: Policy): (st: SearchState)
    requires WellFormed(g)
    ensures Inv(g, st)
    ensures st.frontier.policy == policy
  {
    assert ValidPath(g, g.start, []);
    SearchState(Add(NewFrontier(policy), Root(g)), {}, [], 0)
  }

  /** `n` is a child of arena entry `parent` reached by one of the moves in `nbrs`. */
  predicate IsChild(n: Node, parent: nat, nbrs: seq<(Action, State)>) {
    n.parent == Some(parent) && n.action.Some? && (n.action.value, n.state) in nbrs
  }

  /** Pushes a child for the move `m` unless its target is already pending
      or explored. */
  function PushChild(f: Frontier, explored: set<State>, parent: nat, m: (Action, State)): (r: Frontier)
    ensures r.policy == f.policy
    ensures r.items == f.items || (r.items == f.items + [Node(m.1, Some(parent), Some(m.0))] && m.1 !in explored)
    ensures NoDupStates(f.items) ==> NoDupStates(r.items)
    ensures m.1 in explored || ContainsState(r, m.1)
  {
    if !ContainsState(f, m.1) && m.1 !in explored then
      var r := Add(f, Node(m.1, Some(parent), Some(m.0)));
      assert r.items[|f.items|].state == m.1;
      r
    else f
  }

  /** Pushes, in order, a child for each move whose target is neither pending
      (including children pushed earlier in the same pass) nor explored. The
      old nodes stay in place in front; each new node is a child through one
      of the moves and is not explored; no state is pushed twice; afterwards
      every target is explored or pending. */
  function PushChildren(f: Frontier, explored: set<State>, parent: nat, nbrs: seq<(Action, State)>): (r: Frontier)
    ensures r.policy == f.policy
    ensures |f.items| <= |r.items| && r.items[..|f.items|] == f.items
    ensures forall i :: |f.items| <= i < |r.items| ==> IsChild(r.items[i], parent, nbrs) && r.items[i].state !in explored
    ensures NoDupStates(f.items) ==> NoDupStates(r.items)
    ensures forall k :: 0 <= k < |nbrs| ==> nbrs[k].1 in explored || ContainsState(r, nbrs[k].1)
    decreases |nbrs|
  {
    if |nbrs| == 0 then f
    else
      var f' := PushChild(f, explored, parent, nbrs[0]);
      var r := PushChildren(f', explored, parent, nbrs[1..]);
      PushChildrenStep(f, f', r, explored, parent, nbrs);
      r
  }

  /** The inductive step of `PushChildren`: one conditional push followed by
      the pushes for the remaining moves. */
  lemma PushChildrenStep(f: Frontier, f': Frontier, r: Frontier, explored: set<State>, parent: nat, nbrs: seq<(Action, State)>)
    requires |nbrs| > 0
    requires f'.items == f.items || (f'.items == f.items + [Node(nbrs[0].1, Some(parent), Some(nbrs[0].0))] && nbrs[0].1 !in explored)
    requires nbrs[0].1 in explored || ContainsState(f', nbrs[0].1)
    requires |f'.items| <= |r.items| && r.items[..|f'.items|] == f'.items
    requires forall i :: |f'.items| <= i < |r.items| ==> IsChild(r.items[i], parent, nbrs[1..]) && r.items[i].state !in explored
    requires forall k :: 0 <= k < |nbrs| - 1 ==> nbrs[1..][k].1 in explored || ContainsState(r, nbrs[1..][k].1)
    ensures |f.items| <= |r.items| && r.items[..|f.items|] == f.items
    ensures forall i :: |f.items| <= i < |r.items| ==> IsChild(r.items[i], parent, nbrs) && r.items[i].state !in explored
    ensures forall k :: 0 <= k < |nbrs| ==> nbrs[k].1 in explored || ContainsState(r, nbrs[k].1)
  {
    assert forall i :: 0 <= i < |f'.items| ==> r.items[i] == f'.items[i];
    assert forall m :: m in nbrs[1..] ==> m in nbrs;
    assert nbrs[0] in nbrs;
    forall k | 0 <= k < |nbrs|
      ensures nbrs[k].1 in explored || ContainsState(r, nbrs[k].1)
    {
      if k > 0 {
        assert nbrs[k] == nbrs[1..][k - 1];
      }
    }
  }

  /** Expands a removed non-goal node: counts the removal, records its cell
      as explored, appends it to the arena and pushes its children onto the
      remaining frontier `rest`. */
  function Expand(g: Grid, st: SearchState, node: Node, rest: Frontier): (r: SearchState)
    requires Shaped(g)
    ensures r.explored == st.explored + {node.state}
    ensures r.arena == st.arena + [node] && r.numExplored == st.numExplored + 1
    ensures r.frontier.policy == rest.policy
    ensures |rest.items| <= |r.frontier.items| && r.frontier.items[..|rest.items|] == rest.items
    ensures forall i :: |rest.items| <= i < |r.frontier.items| ==>
      IsChild(r.frontier.items[i], |st.arena|, Neighbors(g, node.state)) && r.frontier.items[i].state !in r.explored
    ensures forall k :: 0 <= k < |Neighbors(g, node.state)| ==>
      Neighbors(g, node.state)[k].1 in r.explored || ContainsState(r.frontier, Neighbors(g, node.state)[k].1)
  {
    var explored := st.explored + {node.state};
    var frontier := PushChildren(rest, explored, |st.arena|, Neighbors(g, node.state));
    SearchState(frontier, explored, st.arena + [node], st.numExplored + 1)
  }

  /** One iteration of the search loop. */
  function Step(g: Grid, st: SearchState): (r: StepResult)
    requires Shaped(g)
    ensures r.Exhausted? <==> IsEmpty(st.frontier)
  {
    match Remove(st.frontier)
    case None => Exhausted
    case Some((node, rest)) =>
      if node.state == g.goal then
        Found(node, st.(frontier := rest, numExplored := st.numExplored + 1))
      else
        Continue(Expand(g, st, node, rest))
  }

  /** Expanding a sound node keeps the arena and the frontier sound: the
      node joins the arena, and each child points to it through a move that
      leads to the child's cell. */
  lemma ExpandKeepsNodesSound(g: Grid, arena: seq<Node>, node: Node, rest: Frontier, explored: set<State>)
    requires Shaped(g)
    requires ArenaOk(g, arena)
    requires NodeOk(g, arena, node, |arena|)
    requires FrontierSound(g, arena, rest)
    requires g.start in explored
    ensures ArenaOk(g, arena + [node])
    ensures FrontierSound(g, arena + [node], PushChildren(rest, explored, |arena|, Neighbors(g, node.state)))
  {
    var arena' := arena + [node];
    var nbrs := Neighbors(g, node.state);
    var f' := PushChildren(rest, explored, |arena|, nbrs).items;
    assert forall i :: 0 <= i < |arena| ==> arena'[i] == arena[i];
    assert forall i :: 0 <= i < |rest.items| ==> f'[i] == rest.items[i];
    forall i | |rest.items| <= i < |f'|
      ensures NodeOk(g, arena', f'[i], |arena'|)
    {
      assert IsChild(f'[i], |arena|, nbrs);
      assert (f'[i].action.value, f'[i].state) in nbrs;
    }
  }

  /** Recording a node whose cell was not explored keeps the arena's cells
      distinct and explored. */
  lemma ExpandKeepsArenaExplored(arena: seq<Node>, explored: set<State>, node: Node)
    requires ArenaExplored(arena, explored)
    requires node.state !in explored
    ensures ArenaExplored(arena + [node], explored + {node.state})
  {
    ArenaThenFresh(arena, explored, node);
    var arena' := arena + [node];
    assert forall i :: 0 <= i < |arena| ==> arena'[i] == arena[i];
  }

  /** Expanding a reachable cell keeps every explored and pending cell
      reachable. */
  lemma ExpandKeepsReachable(g: Grid, explored: set<State>, node: Node, rest: Frontier, parent: nat)
    requires Shaped(g)
    requires Reachable(g, g.start, node.state)
    requires AllReachable(g, explored, rest)
    ensures var explored' := explored + {node.state};
      AllReachable(g, explored', PushChildren(rest, explored', parent, Neighbors(g, node.state)))
  {
    var explored' := explored + {node.state};
    var nbrs := Neighbors(g, node.state);
    var f' := PushChildren(rest, explored', parent, nbrs).items;
    assert forall i :: 0 <= i < |rest.items| ==> f'[i] == rest.items[i];
    forall i | |rest.items| <= i < |f'|
      ensures Reachable(g, g.start, f'[i].state)
    {
      assert IsChild(f'[i], parent, nbrs);
      var a := f'[i].action.value;
      assert (a, f'[i].state) in nbrs;
      ReachableStep(g, g.start, node.state, a);
    }
  }

  /** Expanding the node at position `k` keeps the explored set closed:
      neighbours that were pending stay pending or become explored, and the
      new cell's free neighbours are all explored or pushed. */
  lemma ExpandKeepsClosed(g: Grid, explored: set<State>, f: Frontier, k: nat, parent: nat)
    requires Shaped(g)
    requires k < |f.items|
    requires Closed(g, explored, f)
    ensures var explored' := explored + {f.items[k].state};
      Closed(g, explored', PushChildren(Cut(f, k), explored', parent, Neighbors(g, f.items[k].state)))
  {
    var node := f.items[k];
    var rest := Cut(f, k);
    var explored' := explored + {node.state};
    var nbrs := Neighbors(g, node.state);
    var next := PushChildren(rest, explored', parent, nbrs);
    assert forall i :: 0 <= i < |rest.items| ==> next.items[i] == rest.items[i];
    forall s, a | s in explored' && Free(g, Move(s, a))
      ensures Move(s, a) in explored' || ContainsState(next, Move(s, a))
    {
      var t := Move(s, a);
      if s == node.state {
        assert (a, t) in nbrs;
        var j :| 0 <= j < |nbrs| && nbrs[j] == (a, t);
      } else if t !in explored' {
        assert ContainsState(f, t);
        var i :| 0 <= i < |f.items| && f.items[i].state == t;
        var i' := if i < k then i else i - 1;
        assert rest.items[i'] == f.items[i];
        assert next.items[i'].state == t;
      }
    }
  }

  /** Cutting the removed node out keeps the remaining nodes free of
      duplicates and of explored states, now including the removed one. */
  lemma CutKeepsFresh(f: Frontier, explored: set<State>, k: nat, parent: nat, nbrs: seq<(Action, State)>)
    requires k < |f.items|
    requires NoDupStates(f.items)
    requires Fresh(f, explored)
    ensures var explored' := explored + {f.items[k].state};
      var next := PushChildren(Cut(f, k), explored', parent, nbrs);
      NoDupStates(next.items) && Fresh(next, explored')
  {
    var explored' := explored + {f.items[k].state};
    var rest := Cut(f, k);
    var next := PushChildren(rest, explored', parent, nbrs);
    CutFresh(f, explored, k);
    assert forall i :: 0 <= i < |rest.items| ==> next.items[i] == rest.items[i];
  }

  /** The frontier without its node at `k` has no duplicates and no state
      explored once that node's state is. */
  lemma CutFresh(f: Frontier, explored: set<State>, k: nat)
    requires k < |f.items|
    requires NoDupStates(f.items)
    requires Fresh(f, explored)
    ensures NoDupStates(Cut(f, k).items) && Fresh(Cut(f, k), explored + {f.items[k].state})
  {
    var rest := Cut(f, k);
    assert forall i :: 0 <= i < |rest.items| ==> rest.items[i] == (if i < k then f.items[i] else f.items[i + 1]);
  }

  /** Cutting one node out of the frontier keeps the other nodes sound and
      reachable. */
  lemma CutKeepsSoundAndReachable(g: Grid, arena: seq<Node>, explored: set<State>, f: Frontier, k: nat)
    requires Shaped(g)
    requires k < |f.items|
    requires FrontierSound(g, arena, f)
    requires AllReachable(g, explored, f)
    ensures FrontierSound(g, arena, Cut(f, k)) && AllReachable(g, explored, Cut(f, k))
  {
    var rest := Cut(f, k);
    assert forall i :: 0 <= i < |rest.items| ==> rest.items[i] == (if i < k then f.items[i] else f.items[i + 1]);
  }

  /** Expanding the node at position `k`, when it is not the goal, keeps the
      invariant, adds exactly that node's (free, previously unexplored) cell
      to the explored set and counts one more removal. */
  lemma ExpandKeepsInv(g: Grid, st: SearchState, k: nat)
    requires Inv(g, st)
    requires k < |st.frontier.items|
    requires st.frontier.items[k].state != g.goal
    ensures var next := Expand(g, st, st.frontier.items[k], Cut(st.frontier, k));
      && Inv(g, next)
      && next.numExplored == st.numExplored + 1
      && st.frontier.items[k].state !in st.explored
      && Free(g, st.frontier.items[k].state)
      && next.explored == st.explored + {st.frontier.items[k].state}
  {
    var F := st.frontier.items;
    var node := F[k];
    var rest := Cut(st.frontier, k);
    var E := st.explored;
    var A := st.arena;
    var E' := E + {node.state};
    var next := Expand(g, st, node, rest);
    assert |E'| == |E| + 1;
    assert g.start in E';
    CutKeepsSoundAndReachable(g, A, E, st.frontier, k);
    ExpandKeepsNodesSound(g, A, node, rest, E');
    ExpandKeepsReachable(g, E, node, rest, |A|);
    ExpandKeepsClosed(g, E, st.frontier, k, |A|);
    CutKeepsFresh(st.frontier, E, k, |A|, Neighbors(g, node.state));
    ExpandKeepsArenaExplored(A, E, node);
  }

  /** An iteration that carries on expands the node the policy removes: it
      keeps the invariant, adds that node's cell (new and free) to the
      explored set and counts one more removal. */
  lemma StepContinue(g: Grid, st: SearchState)
    requires Inv(g, st)
    requires !IsEmpty(st.frontier) && st.frontier.items[NextIndex(st.frontier)].state != g.goal
    ensures Step(g, st).Continue?
    ensures Inv(g, Step(g, st).next)
    ensures Step(g, st).next.numExplored == st.numExplored + 1
    ensures st.explored < Step(g, st).next.explored
    ensures exists s :: s !in st.explored && Free(g, s) && Step(g, st).next.explored == st.explored + {s}
    ensures Step(g, st).next.explored == st.explored + {st.frontier.items[NextIndex(st.frontier)].state}
  {
    RemovedIndex(st.frontier);
    ExpandKeepsInv(g, st, NextIndex(st.frontier));
  }

  /** An iteration that removes the goal: the node returned is the one the
      policy removes, the goal node is sound with respect
      to the arena and was not explored, the removal is counted and nothing
      else changes; when start and goal coincide it is the root, removed on
      the very first iteration. */
  lemma StepFound(g: Grid, st: SearchState)
    requires Inv(g, st)
    requires !IsEmpty(st.frontier) && st.frontier.items[NextIndex(st.frontier)].state == g.goal
    ensures Step(g, st).Found?
    ensures Step(g, st).node == st.frontier.items[NextIndex(st.frontier)]
    ensures Step(g, st).node.state == g.goal
    ensures NodeOk(g, st.arena, Step(g, st).node, |st.arena|)
    ensures Step(g, st).after.explored == st.explored
    ensures Step(g, st).after.numExplored == |st.explored| + 1
    ensures g.start == g.goal ==> Step(g, st).node == Root(g) && st.explored == {}
    ensures g.start in st.explored || g.start == g.goal
    ensures NoDupStates(st.arena + [Step(g, st).node])
  {
    var F := st.frontier.items;
    RemovedIndex(st.frontier);
    var node := F[NextIndex(st.frontier)];
    assert Step(g, st).node == node;
    if g.start == g.goal {
      assert F == [Root(g)];
    }
    ArenaThenFresh(st.arena, st.explored, node);
  }

  /** A node whose cell is not explored can follow the arena without
      repeating a cell. */
  lemma ArenaThenFresh(arena: seq<Node>, explored: set<State>, node: Node)
    requires ArenaExplored(arena, explored)
    requires node.state !in explored
    ensures NoDupStates(arena + [node])
  {
    var arena' := arena + [node];
    assert forall i :: 0 <= i < |arena| ==> arena'[i] == arena[i];
  }

  /** When the frontier runs empty the explored set is exactly the set of
      cells reachable from the start, so the goal is unreachable. */
  lemma ExhaustedUnreachable(g: Grid, explored: set<State>, f: Frontier)
    requires Shaped(g)
    requires g.start in explored && g.goal !in explored
    requires IsEmpty(f) && Closed(g, explored, f)
    requires forall s :: s in explored ==> Reachable(g, g.start, s)
    ensures forall s :: s in explored <==> Reachable(g, g.start, s)
    ensures !Reachable(g, g.start, g.goal)
  {
    forall s | Reachable(g, g.start, s)
      ensures s in explored
    {
      var acts :| ValidPath(g, g.start, acts) && Destination(g.start, acts) == s;
      ClosedSetContainsWalks(g, explored, g.start, acts);
    }
  }

  /** A solution: the cells are the replay of the moves from the start, all
      free, ending at the goal (the empty walk when start is the goal). */
  predicate IsSolution(g: Grid, actions: seq<Action>, cells: seq<State>)
    requires Shaped(g)
  {
    && |actions| == |cells|
    && cells == Replay(g.start, actions)
    && ValidPath(g, g.start, actions)
    && Destination(g.start, actions) == g.goal
  }

  /** Follows parent links from `goalNode` back to the root, collecting the
      actions and states on the way, then reverses both so they run from the
      start to `goalNode`. The walk visits `goalNode`'s cell and cells of the
      arena, each at most once, and never the start cell. */
  method Reconstruct(g: Grid, arena: seq<Node>, goalNode: Node) returns (actions: seq<Action>, cells: seq<State>)
    requires Shaped(g)
    requires ArenaOk(g, arena)
    requires NodeOk(g, arena, goalNode, |arena|)
    requires NoDupStates(arena + [goalNode])
    ensures |actions| == |cells|
    ensures cells == Replay(g.start, actions)
    ensures ValidPath(g, g.start, actions)
    ensures Destination(g.start, actions) == goalNode.state
    ensures goalNode.parent.None? ==> actions == [] && cells == []
    ensures Distinct(cells) && g.start !in cells
    ensures forall c :: c in cells ==> c == goalNode.state || AnyHasState(arena, c)
  {
    ghost var chain := arena + [goalNode];
    var revActions: seq<Action> := [];
    var revCells: seq<State> := [];
    var node := goalNode;
    ghost var idx := |arena|;
    ghost var revIdx: seq<int> := [];
    while node.parent.Some?
      invariant 0 <= idx <= |arena| && node == chain[idx]
      invariant NodeOk(g, arena, node, |arena|)
      invariant Reverse(revCells) == Replay(node.state, Reverse(revActions))
      invariant ValidPath(g, node.state, Reverse(revActions))
      invariant Destination(node.state, Reverse(revActions)) == goalNode.state
      invariant goalNode.parent.None? ==> revActions == [] && revCells == []
      invariant BackTrail(g, chain, idx, revCells, revIdx)
      decreases idx
    {
      var p := node.parent.value;
      var a := node.action.value;
      var prev := arena[p];
      ReverseSnoc(revActions, a);
      ReverseSnoc(revCells, node.state);
      WalkPrepend(g, prev.state, node.state, a, Reverse(revActions), Reverse(revCells));
      ChainStep(g, arena, goalNode, idx, revCells, revIdx);
      revActions := revActions + [a];
      revCells := revCells + [node.state];
      revIdx := revIdx + [idx];
      node := prev;
      idx := p;
    }
    actions := Reverse(revActions);
    cells := Reverse(revCells);
    ChainCells(g, arena, goalNode, idx, revCells, revIdx);
  }

  /** A walk from `cur` extended in front by the move `a` from `prev` into
      `cur`: still valid, same end cell, one more cell in front. */
  lemma WalkPrepend(g: Grid, prev: State, cur: State, a: Action, acts: seq<Action>, cells: seq<State>)
    requires Shaped(g)
    requires cur == Move(prev, a) && Free(g, cur)
    requires cells == Replay(cur, acts)
    requires ValidPath(g, cur, acts)
    ensures [cur] + cells == Replay(prev, [a] + acts)
    ensures ValidPath(g, prev, [a] + acts)
    ensures Destination(prev, [a] + acts) == Destination(cur, acts)
  {
    ReplayCons(prev, a, acts);
    var cells' := Replay(prev, [a] + acts);
    assert forall i :: 1 <= i < |cells'| ==> cells'[i] == cells[i - 1];
  }

  /** The cells collected while walking back to position `idx` of `chain`:
      each is the cell of a distinct later position, none is the start. */
  predicate BackTrail(g: Grid, chain: seq<Node>, idx: int, revCells: seq<State>, revIdx: seq<int>) {
    && 0 <= idx
    && |revIdx| == |revCells|
    && (forall i :: 0 <= i < |revCells| ==> idx < revIdx[i] < |chain| && revCells[i] == chain[revIdx[i]].state)
    && Distinct(revCells)
    && g.start !in revCells
  }

  /** One step back along the parent links from position `idx` of the arena
      extended by the goal node: the parent sits strictly earlier, and its
      cell differs from every cell collected so far, all of which come from
      later positions. */
  lemma ChainStep(g: Grid, arena: seq<Node>, goalNode: Node, idx: int, revCells: seq<State>, revIdx: seq<int>)
    requires Shaped(g)
    requires ArenaOk(g, arena)
    requires NodeOk(g, arena, goalNode, |arena|)
    requires NoDupStates(arena + [goalNode])
    requires 0 <= idx <= |arena| && (arena + [goalNode])[idx].parent.Some?
    requires BackTrail(g, arena + [goalNode], idx, revCells, revIdx)
    ensures var chain := arena + [goalNode];
      var p := chain[idx].parent.value;
      && p < idx
      && chain[p] == arena[p]
      && BackTrail(g, chain, p, revCells + [chain[idx].state], revIdx + [idx])
  {
    var chain := arena + [goalNode];
    var node := chain[idx];
    if idx < |arena| {
      assert node == arena[idx];
      assert NodeOk(g, arena, arena[idx], idx);
    }
    forall i | 0 <= i < |revCells|
      ensures revCells[i] != node.state
    {
      assert chain[revIdx[i]].state != chain[idx].state;
    }
    var revCells' := revCells + [node.state];
    assert forall i :: 0 <= i < |revCells| ==> revCells'[i] == revCells[i];
  }

  /** The collected cells, reversed, come from the goal node and the arena. */
  lemma ChainCells(g: Grid, arena: seq<Node>, goalNode: Node, idx: int, revCells: seq<State>, revIdx: seq<int>)
    requires 0 <= idx
    requires BackTrail(g, arena + [goalNode], idx, revCells, revIdx)
    ensures Distinct(Reverse(revCells))
    ensures forall c :: c in Reverse(revCells) <==> c in revCells
    ensures forall c :: c in revCells ==> c == goalNode.state || AnyHasState(arena, c)
  {
    ReverseElements(revCells);
    forall c | c in revCells
      ensures c == goalNode.state || AnyHasState(arena, c)
    {
      var i :| 0 <= i < |revCells| && revCells[i] == c;
      if revIdx[i] < |arena| {
        assert arena[revIdx[i]].state == c;
      }
    }
  }

  /** What a finished search promises: success yields a solution (a
      replayable walk over free cells from start to goal); failure happens
      exactly when the goal is unreachable, and then the explored set is
      exactly the set of reachable cells. Each cell is removed at most once,
      so the removal count is the size of the explored set (plus one for the
      goal on success) and never exceeds the number of free cells. When
      start is the goal the search succeeds at once. */
  ghost predicate CorrectOutcome(g: Grid, out: Outcome)
    requires Shaped(g)
  {
    && (out.Solved? ==> IsSolution(g, out.actions, out.cells))
    && (out.NoSolution? <==> !Reachable(g, g.start, g.goal))
    && (forall s :: s in out.explored ==> Reachable(g, g.start, s))
    && (out.NoSolution? ==> forall s :: Reachable(g, g.start, s) ==> s in out.explored)
    && (out.Solved? ==> out.numExplored == |out.explored| + 1 && g.goal !in out.explored)
    && (out.NoSolution? ==> out.numExplored == |out.explored|)
    && AllFree(g, out.explored)
    && out.numExplored <= |FreeCells(g)| <= g.height * g.width
    && (g.start == g.goal ==> out == Solved([], [], 1, {}))
    && (out.Solved? ==> Distinct(out.cells) && g.start !in out.cells && |out.actions| < out.numExplored)
  }

  /** Reporting failure when the frontier runs empty is correct. */
  lemma ExhaustedOutcome(g: Grid, st: SearchState)
    requires Inv(g, st)
    requires IsEmpty(st.frontier)
    ensures CorrectOutcome(g, NoSolution(st.numExplored, st.explored))
  {
    assert g.start in st.explored;
    ExhaustedUnreachable(g, st.explored, st.frontier);
    CountBound(g, st.explored);
  }

  /** A set of free cells has at most as many members as the grid has free
      cells, hence at most height x width. */
  lemma CountBound(g: Grid, cells: set<State>)
    requires Shaped(g)
    requires AllFree(g, cells)
    ensures |cells| <= |FreeCells(g)| <= g.height * g.width
  {
    assert cells <= FreeCells(g);
    SubsetSize(cells, FreeCells(g));
    FreeCellsBound(g);
  }

  /** Reporting the walk reconstructed from the goal node is correct. */
  lemma FoundOutcome(g: Grid, explored: set<State>, actions: seq<Action>, cells: seq<State>)
    requires WellFormed(g)
    requires AllFree(g, explored) && g.goal !in explored
    requires forall s :: s in explored ==> Reachable(g, g.start, s)
    requires IsSolution(g, actions, cells)
    requires g.start == g.goal ==> actions == [] && cells == [] && explored == {}
    requires Distinct(cells) && g.start !in cells
    requires forall c :: c in cells ==> c in explored + {g.goal}
    requires g.start in explored + {g.goal}
    ensures CorrectOutcome(g, Solved(actions, cells, |explored| + 1, explored))
  {
    WalkReaches(g, g.start, actions);
    CountBound(g, explored + {g.goal});
    assert |explored + {g.goal}| == |explored| + 1;
    SimpleWalkLength(g, explored + {g.goal}, cells);
    if g.start == g.goal {
      assert |explored| == 0;
    }
  }

  /** A walk that repeats no cell, avoids the start and stays within a set
      holding the start has fewer cells than the set. */
  lemma SimpleWalkLength(g: Grid, cover: set<State>, cells: seq<State>)
    requires Distinct(cells) && g.start !in cells
    requires forall c :: c in cells ==> c in cover
    requires g.start in cover
    ensures |cells| < |cover|
  {
    DistinctSize(cells, cover - {g.start});
  }

  /** The cells of the rebuilt walk are the goal node's cell and arena cells,
      which are all explored. */
  lemma CellsExplored(arena: seq<Node>, explored: set<State>, target: State, cells: seq<State>)
    requires ArenaExplored(arena, explored)
    requires forall c :: c in cells ==> c == target || AnyHasState(arena, c)
    ensures forall c :: c in cells ==> c in explored + {target}
  {
  }

  /** Exploring one more free cell shrinks the set of unexplored free cells. */
  lemma UnexploredShrinks(g: Grid, explored: set<State>, s: State)
    requires Shaped(g)
    requires Free(g, s) && s !in explored
    ensures FreeCells(g) - (explored + {s}) < FreeCells(g) - explored
  {
    assert s in FreeCells(g) - explored;
  }

  /** Finds a solution to the maze if one exists; see `CorrectOutcome` for
      what the clauses below mean together. */
  method Solve(g: Grid, policy: Policy) returns (out: Outcome)
    requires WellFormed(g)
    ensures out.Solved? ==> IsSolution(g, out.actions, out.cells)
    ensures out.NoSolution? <==> !Reachable(g, g.start, g.goal)
    ensures forall s :: s in out.explored ==> Reachable(g, g.start, s)
    ensures out.NoSolution? ==> forall s :: Reachable(g, g.start, s) ==> s in out.explored
    ensures out.Solved? ==> out.numExplored == |out.explored| + 1 && g.goal !in out.explored
    ensures out.NoSolution? ==> out.numExplored == |out.explored|
    ensures AllFree(g, out.explored)
    ensures out.numExplored <= |FreeCells(g)| <= g.height * g.width
    ensures g.start == g.goal ==> out == Solved([], [], 1, {})
    ensures out.Solved? ==> Distinct(out.cells) && g.start !in out.cells && |out.actions| < out.numExplored
  {
    var st := Initial(g, policy);
    while true
      invariant Inv(g, st)
      decreases FreeCells(g) - st.explored
    {
      match Step(g, st)
      case Exhausted =>
        ExhaustedOutcome(g, st);
        out := NoSolution(st.numExplored, st.explored);
        assert CorrectOutcome(g, out);
        return;
      case Found(node, after) =>
        RemovedIndex(st.frontier);
        StepFound(g, st);
        var actions, cells := Reconstruct(g, st.arena, node);
        CellsExplored(st.arena, st.explored, node.state, cells);
        FoundOutcome(g, st.explored, actions, cells);
        out := Solved(actions, cells, after.numExplored, after.explored);
        assert CorrectOutcome(g, out);
        return;
      case Continue(next) =>
        RemovedIndex(st.frontier);
        StepContinue(g, st);
        ghost var s :| s !in st.explored && Free(g, s) && next.explored == st.explored + {s};
        UnexploredShrinks(g, st.explored, s);
        st := next;
    }
  }
}
