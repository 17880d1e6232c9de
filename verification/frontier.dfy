/** Search nodes and the frontier of pending nodes. The stack frontier and
    the queue frontier share `add`, `contains_state` and `empty` and differ
    only in which end `remove` takes from, so they are one datatype with a
    removal policy. */
module Frontiers {
  import opened Wrappers
  import opened MazeGrid
  import opened Sequences

  /** Removal policy: DFS takes the newest node (stack), BFS the oldest (queue). */
  datatype Policy = DFS | BFS

  /** A search node. `parent` is the index of the parent node in the search's
      arena of expanded nodes, None for the root; `action` is the move taken
      from the parent, None for the root. */
  datatype Node = Node(state: State, parent: Option<nat>, action: Option<Action>)

  /** Pending nodes, oldest first. */
  datatype Frontier = Frontier(policy: Policy, items: seq<Node>)

  /** A fresh, empty frontier. */
  function NewFrontier(policy: Policy): Frontier {
    Frontier(policy, [])
  }

  /** Stores a node; `add` never fails and touches nothing else: the
      frontier grows by one at the back and keeps its policy. */
  function Add(f: Frontier, n: Node): (r: Frontier)
    ensures r.policy == f.policy
    ensures |r.items| == |f.items| + 1 && r.items[..|f.items|] == f.items
    ensures r.items[|f.items|] == n
  {
    f.(items := f.items + [n])
  }

  /** After an add, the frontier contains exactly the states it contained
      before plus the added node's. */
  lemma AddContains(f: Frontier, n: Node)
    ensures forall s :: ContainsState(Add(f, n), s) <==> ContainsState(f, s) || s == n.state
  {
    var r := Add(f, n);
    assert forall i :: 0 <= i < |f.items| ==> r.items[i] == f.items[i];
    assert r.items[|f.items|] == n;
  }

  /** A frontier is empty exactly when it contains no state at all. */
  predicate IsEmpty(f: Frontier)
    ensures IsEmpty(f) <==> forall s :: !ContainsState(f, s)
  {
    assert |f.items| > 0 ==> ContainsState(f, f.items[0].state);
    |f.items| == 0
  }

  /** Whether some stored node carries `s`, by a front-to-back scan. */
  function ContainsState(f: Frontier, s: State): (b: bool)
    ensures b <==> exists i :: 0 <= i < |f.items| && f.items[i].state == s
  {
    AnyHasState(f.items, s)
  }

  function AnyHasState(nodes: seq<Node>, s: State): (b: bool)
    ensures b <==> exists i :: 0 <= i < |nodes| && nodes[i].state == s
    decreases |nodes|
  {
    if |nodes| == 0 then false
    else
      var rest := AnyHasState(nodes[1..], s);
      assert forall i :: 0 < i < |nodes| ==> nodes[i] == nodes[1..][i - 1];
      nodes[0].state == s || rest
  }

  /** Removes one node according to the policy. Fails exactly when the
      frontier is empty; otherwise the removed node and the remaining
      frontier put back together give the original sequence: the node was
      the last one added for DFS and the first one added for BFS. */
  function Remove(f: Frontier): (r: Option<(Node, Frontier)>)
    ensures r.None? <==> IsEmpty(f)
    ensures r.Some? ==> r.value.1.policy == f.policy
    ensures r.Some? && f.policy == DFS ==> f.items == r.value.1.items + [r.value.0]
    ensures r.Some? && f.policy == BFS ==> f.items == [r.value.0] + r.value.1.items
  {
    if IsEmpty(f) then None
    else
      match f.policy
      case DFS => Some((f.items[|f.items| - 1], f.(items := f.items[..|f.items| - 1])))
      case BFS => Some((f.items[0], f.(items := f.items[1..])))
  }

  /** The frontier with the node at position `k` taken out. */
  function Cut(f: Frontier, k: nat): Frontier
    requires k < |f.items|
  {
    f.(items := f.items[..k] + f.items[k + 1..])
  }

  /** The position `Remove` takes from: the newest node under DFS, the
      oldest under BFS. */
  function NextIndex(f: Frontier): nat
    requires !IsEmpty(f)
  {
    if f.policy == DFS then |f.items| - 1 else 0
  }

  /** The removed node sits at `NextIndex`, and the rest of the frontier is
      the original with that one position cut out. */
  lemma RemovedIndex(f: Frontier)
    requires !IsEmpty(f)
    ensures NextIndex(f) < |f.items|
    ensures Remove(f) == Some((f.items[NextIndex(f)], Cut(f, NextIndex(f))))
  {
    var k := NextIndex(f);
    if f.policy == DFS {
      assert f.items[..k] + f.items[k + 1..] == f.items[..k];
    } else {
      assert f.items[..k] + f.items[k + 1..] == f.items[1..];
    }
  }

  /** The stack law: under DFS, removing right after an add returns the added
      node and leaves the frontier as it was. */
  lemma StackLastInFirstOut(f: Frontier, n: Node)
    requires f.policy == DFS
    ensures Remove(Add(f, n)) == Some((n, f))
  {
    assert (f.items + [n])[..|f.items|] == f.items;
  }

  /** The queue law: under BFS, an add to a non-empty frontier does not change
      which node comes out next; the added node waits behind the rest. */
  lemma QueueFirstInFirstOut(f: Frontier, n: Node)
    requires f.policy == BFS
    requires !IsEmpty(f)
    ensures Remove(Add(f, n)) == Some((f.items[0], Add(f.(items := f.items[1..]), n)))
  {
    assert (f.items + [n])[1..] == f.items[1..] + [n];
  }

  /** The nodes in the order repeated removal yields them until the frontier
      is empty. */
  function Drain(f: Frontier): seq<Node>
    decreases |f.items|
  {
    match Remove(f)
    case None => []
    case Some((n, rest)) => [n] + Drain(rest)
  }

  /** Removal order: BFS yields the nodes in the order they were added, DFS
      in the reverse order. */
  lemma {:induction false} DrainOrder(f: Frontier)
    ensures f.policy == BFS ==> Drain(f) == f.items
    ensures f.policy == DFS ==> Drain(f) == Reverse(f.items)
    decreases |f.items|
  {
    if !IsEmpty(f) {
      var (n, rest) := Remove(f).value;
      DrainOrder(rest);
      if f.policy == DFS {
        ReverseSnoc(rest.items, n);
      }
    }
  }
}
