# Maze search, modelled in Dafny

This project models the search engine of `maze.py`. That program finds a way
from a start cell `A` to a goal cell `B` through a rectangular grid of walls,
using depth-first search (a stack frontier) or breadth-first search (a queue
frontier). The model covers five parts:

- the search `Node`;
- the two frontiers, which are one `Frontier` datatype with a `DFS`/`BFS` removal policy;
- `Maze.neighbors`;
- the main loop of `Maze.solve`, with one iteration as the pure function `Search.Step`;
- the parent-pointer walk that rebuilds the solution, `Search.Reconstruct`.

Modules:

- `Wrappers`: `Option`.
- `Sequences`: `Reverse`, used for the two `reverse()` calls after the back-walk,
  and `Distinct`, which says a walk repeats no cell.
- `MazeGrid`: the grid, the four moves, `Neighbors`, and walks given as action
  sequences (`Replay`, `ValidPath`, `Reachable`). It also counts free cells.
- `Frontiers`: `Node`, `Frontier`, `Add`, `ContainsState`, `Remove` and the
  stack and queue laws.
- `Search`: the search state, `Step`, the loop invariant and its preservation,
  `Reconstruct`, and `Solve`.

Some shapes differ from the source:

- **Parent links.** A parent is an index into the arena. The arena is the
  sequence of expanded nodes in the order they were removed. In the source a
  parent is a reference to a `Node` object.
- **Input grid.** The grid handed to `Solve` is assumed already built by the
  file parser: rows of equal width, with free start and goal cells
  (`MazeGrid.WellFormed`).
- **Failure.** The source raises "no solution" when the frontier runs out.
  The model returns the `NoSolution` outcome instead.
- **Removal count.** `num_explored` counts removals. It includes the removal
  of the goal node, so a successful search reports one more than the size of
  the explored set.

## Model

| member | source | states |
|---|---|---|
| Frontiers.Add | maze.py:11-12 | the policy is kept, the pending items stay as they were, and the added node goes right behind them as the last item |
| Frontiers.AddContains | maze.py:11-15 | after an add, a state is pending exactly when it was pending before or is the added node's state |
| Frontiers.IsEmpty | maze.py:17-18 | a frontier is empty exactly when no state is pending in it |
| Frontiers.ContainsState | maze.py:14-15 | true exactly when some pending node carries the state |
| Frontiers.Remove | maze.py:20-36 | fails exactly on an empty frontier; otherwise the remaining items plus the removed node give back the original items: the node was the last item under DFS (stack) and the first under BFS (queue); the policy is kept |
| Frontiers.RemovedIndex | maze.py:20-36 | the removed node is the one at `NextIndex` (the last position under DFS, the first under BFS), and the remaining frontier is the original with just that position cut out |
| Frontiers.StackLastInFirstOut | maze.py:11-26 | under DFS, a remove right after an add returns the added node and leaves the earlier frontier unchanged |
| Frontiers.QueueFirstInFirstOut | maze.py:29-36 | under BFS, an add to a non-empty frontier does not change which node comes out next; the new node queues behind the rest |
| Frontiers.DrainOrder | maze.py:7-36 | removing until empty yields the items in insertion order under BFS and in reverse insertion order under DFS |
| MazeGrid.KeepFree | maze.py:95-98 | keeps exactly the candidate moves whose target is inside the grid and not a wall; when the candidates come in rank order (up, down, left, right), so does the result |
| MazeGrid.Neighbors | maze.py:86-99 | each result is one move from the state to a free cell; a move is listed exactly when its target is free; the order is up, down, left, right; there are at most four |
| MazeGrid.Replay | maze.py:124-133 | the cells a move sequence visits: one per move, each one step from the previous cell |
| MazeGrid.ValidPathSteps | maze.py:139-141 | a walk stays on free cells exactly when each of its steps is one that `Neighbors` offers |
| MazeGrid.ReachableStep | maze.py:139-142 | a free cell one move from a reachable cell is reachable |
| MazeGrid.ClosedSetContainsWalks | maze.py:117-142 | a set that holds the start and contains every free step out of its members contains the end of every valid walk |
| MazeGrid.FreeCellsBound | maze.py:49-52 | there are at most height × width free cells |
| Sequences.DistinctSize | maze.py:124-133 | a sequence with no repeats drawn from a set is no longer than the set |
| Sequences.Reverse | maze.py:132-133 | same length, with element i taken from the mirrored position |
| Search.Root | maze.py:106 | the root node sits on the start cell with no parent; in a well-formed grid it is a sound node for an empty arena |
| Search.Initial | maze.py:104-115 | the state before the loop (the root alone on a frontier of the chosen policy, nothing explored, count 0) satisfies the loop invariant |
| Search.PushChild | maze.py:140-142 | adds a child for the move only when its target is neither pending nor explored; no state is pushed twice; afterwards the target is explored or pending |
| Search.PushChildren | maze.py:139-142 | the old frontier stays in front; every added node is a child of the expanded node through one of its moves and is not explored; no state is pushed twice; afterwards every neighbour is explored or pending |
| Search.Step | maze.py:117-142 | an iteration finds no node exactly when the frontier is empty |
| Search.Expand | maze.py:137-142 | the explored set gains the node's cell, the node joins the arena and the count goes up by one; the old frontier stays in front and keeps its policy; every added node is a child of the expanded node through one of its moves and is not explored; afterwards every neighbour of the node is explored or pending |
| Search.ExpandKeepsInv | maze.py:137-142 | expanding a removed non-goal node keeps the loop invariant; the explored set gains exactly that node's unexplored free cell, and the count goes up by one |
| Search.StepContinue | maze.py:121-142 | when the node to be removed is not on the goal cell, the iteration carries on, keeps the invariant, adds the cell of exactly that node (the last pending under DFS, the first under BFS), which is new and free, to the explored set and counts one removal, so the unexplored free cells strictly shrink |
| Search.StepFound | maze.py:121-124 | when the node to be removed is on the goal cell, the iteration stops and returns exactly that node (the last pending under DFS, the first under BFS), sound and on the goal cell, counts its removal and leaves the explored set as it was; when start is the goal it returns the root before anything is explored; otherwise the start is already explored; the returned node's cell is not the cell of any arena node |
| Search.ExhaustedUnreachable | maze.py:117-119 | when the frontier is empty and closed (every free step out of an explored cell leads to an explored cell), the explored set is exactly the set of cells reachable from the start, and the goal is not among them |
| Search.Reconstruct | maze.py:124-133 | following parent links from the goal node and reversing gives moves whose replay from the start is the returned cells, all free, ending at the goal node's cell; the cells repeat none, never include the start, and are each the goal node's cell or an arena node's cell; the root gives two empty sequences |
| Search.ChainStep | maze.py:126-130 | one step of the back-walk moves to a parent strictly earlier in the arena, and the cells collected so far stay distinct and free of the start |
| Search.SimpleWalkLength | maze.py:124-135 | a walk whose cells repeat none, avoid the start and lie in a set holding the start has fewer moves than that set has members |
| Search.CountBound | maze.py:121-122 | a set of free cells is no larger than the set of all free cells, which is at most height × width |
| Search.ExhaustedOutcome | maze.py:117-119 | reporting failure on an empty frontier meets every promise of `CorrectOutcome` |
| Search.FoundOutcome | maze.py:124-135 | reporting the rebuilt walk after the goal is removed meets every promise of `CorrectOutcome` |
| Search.Solve | maze.py:102-142 | success returns a valid walk from start to goal over free cells that repeats no cell, never revisits the start and has fewer moves than the count; failure happens exactly when the goal is unreachable, and then the explored set is exactly the reachable cells; explored cells are always free and reachable; the count is the explored set's size (plus one for the goal on success) and at most the number of free cells, which is at most height × width; start equal to goal gives empty moves and cells with count 1; the loop terminates |

## Left out

- The maze-file parser (`Maze.__init__`, maze.py:39-63) is not modelled:
  - its counting of `A` and `B`, its width taken from the longest line, and its `ValueError` on stray characters are file I/O and text handling;
  - `Solve` instead requires a grid that is already well formed (`MazeGrid.WellFormed`);
  - a line shorter than the longest one makes the parser index past the line's end, and that is not modelled either.
- `Maze.print` (maze.py:68-83) and `Maze.output_image` (maze.py:145-183) are console and image output.
- The driver script (maze.py:186-194) uses hard-coded file paths and the DFS strategy, with console and image output.
- Exception messages, and the difference between `Exception` and `ValueError`, are not modelled:
  - failure of `Solve` is the `NoSolution` outcome;
  - an empty-frontier `remove` returns `None`;
  - a strategy other than "DFS" or "BFS" cannot be expressed, because the strategy is the `Policy` datatype.
- `Solve` does not receive the mutable attributes `self.solution`, `self.num_explored` and `self.explored`. It returns them in its `Outcome`.
- Search.Solve: does not state that BFS returns a shortest walk. The source does not promise that either.
- Search.PushChildren: does not state that children are appended in the order `Neighbors` lists them. The body pushes them in that order, but the contract only says which nodes are added.
