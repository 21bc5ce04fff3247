# Temple explorer: exploration and escape search

This project models `student.Explorer`, the player's side of a cavern game with two phases.

**Exploration phase.** The explorer cannot see the map. On each tile it sees:
- its open neighbours;
- each neighbour's distance to the orb.

`explore` runs a depth-first search over three pieces of state:
- `haveBeen`: the tiles stood on, most recent first;
- `pathStack`: the tiles left by forward moves;
- `forks`: the tiles left while other unvisited neighbours remained.

On each pass it builds a candidate list: the neighbours, sorted by distance, minus every visited tile. It then acts on the number of candidates:
- none: back up to the last fork;
- one: walk down the corridor;
- more than one: record a fork, then take the nearest candidate.

`goBackToLastFork` pops the fork. It then pops the move stack, moving onto each popped tile, until it is back on that fork.

**Escape phase.** The whole map is visible. `escape`:
1. lays the tiles out on boolean grids;
2. closes the grid's outer ring;
3. forces the exit open;
4. calls the recursive `findPath`, which marks a route from the explorer's tile to the exit.

**Modules.**
- `Sequences`: facts about sequences used as stacks:
  - duplicate-freedom;
  - the order in which a stack is popped;
  - "the fork stack lies along the move stack".
- `Exploration`:
  - the host's view of the cavern, as class `Cave`;
  - the sort and filter that build the candidate list;
  - the loop invariant of the exploration, as `Bookkept`, with one lemma per kind of pass;
  - class `Explorer`, holding the three pieces of state and the methods of the exploration loop.
- `Maze`: the grid set-up and the search, as class `Maze`, whose grids are `array2<bool>` fields.

**Proved.** `Explore` reaches the orb whenever a walk from the start leads to it. It gives up only on a dead end with no fork left, and the model proves that this happens only when no walk from the start reaches the orb. When `FindPath` returns true, its ghost route is a step-by-step route through open cells to the exit, and every cell on it before the exit is marked on the `path` grid.

**Documentation and code disagree.** The javadoc of `escape` (Explorer.java:106-128) asks for an escape within a time limit that also collects gold. The code does neither: it is a plain depth-first search on a grid, with no budget, no gold and no shortest path. The model follows the code.

## Model

| member | source | states |
|---|---|---|
| Exploration.Cave.MoveTo | temple/src/student/Explorer.java:69 | the host moves the explorer only onto an open neighbour; the position becomes that tile and the move is logged |
| Exploration.SortByDistance | temple/src/student/Explorer.java:52-54 | the neighbour list comes out in ascending order of distance to the orb and is a permutation of the input |
| Exploration.Unvisited | temple/src/student/Explorer.java:57 | reference filter: a tile is kept if and only if it is in the list and not visited, and nothing is added |
| Exploration.RemoveFirst | temple/src/student/Explorer.java:57 | removing an absent tile changes nothing; removing a present tile drops exactly one copy of it |
| Exploration.RemoveEach | temple/src/student/Explorer.java:57 | removing every visited tile once each only ever takes elements away |
| Exploration.RemoveFirstUnvisited | temple/src/student/Explorer.java:57 | on a duplicate-free list, one more single-copy removal equals filtering out one more visited tile |
| Exploration.RemoveEachFilters | temple/src/student/Explorer.java:57 | on a duplicate-free list, the single-copy removals equal the reference filter |
| Exploration.UnvisitedSorted | temple/src/student/Explorer.java:53-57 | filtering out visited tiles keeps the order by distance |
| Exploration.CandidatesNearestFirst | temple/src/student/Explorer.java:51-57 | the candidates are exactly the unvisited neighbours, sorted by distance, and the head is no farther than any unvisited neighbour |
| Exploration.Explorer.constructor | temple/src/student/Explorer.java:11-13 | the explorer starts with no tile stood on, an empty move stack and an empty fork stack, the state `Explore` starts from |
| Exploration.Explorer.RemoveVisited | temple/src/student/Explorer.java:57 | the removal loop over `haveBeen` computes `RemoveEach` |
| Exploration.Explorer.ListChoices | temple/src/student/Explorer.java:50-57 | the candidate list built on a pass equals the sorted, filtered neighbours of the current tile |
| Exploration.ForwardSeesNewTile | temple/src/student/Explorer.java:65-77 | a forward move reaches a tile never seen before, so the unseen tiles shrink by exactly that tile |
| Exploration.ForwardFrontier | temple/src/student/Explorer.java:65-77 | leaving a tile either records it as a fork or takes its only unvisited neighbour, so every stood-on tile with an unseen neighbour stays on the fork stack |
| Exploration.ForwardKeepsBookkeeping | temple/src/student/Explorer.java:65-77 | a corridor or fork move keeps the loop invariant and shrinks the set of unseen tiles |
| Exploration.BacktrackKeepsBookkeeping | temple/src/student/Explorer.java:60-64 | backing up to the last fork keeps the loop invariant and leaves the set of unseen tiles unchanged |
| Exploration.DeadEndUnreachable | temple/src/student/Explorer.java:84 | a dead end with an empty fork stack (the failing pop) means no walk from the start reaches the orb |
| Exploration.BackStep | temple/src/student/Explorer.java:87-88 | the tile popped from the move stack is an open neighbour of the current tile, so the backward move is legal |
| Exploration.WalkStaysInside | temple/src/student/Explorer.java:84 | a set of tiles closed under moves keeps every walk that starts in it |
| Sequences.SubsequenceExtend | temple/src/student/Explorer.java:68 | pushing onto the move stack alone keeps the fork stack lying along it |
| Sequences.SubsequenceDropLast | temple/src/student/Explorer.java:84 | popping the fork stack keeps it lying along the move stack |
| Sequences.ReversedPopOne | temple/src/student/Explorer.java:86-90 | each pop extends the moves made by the popped tile, so the moves are the popped part of the stack in reverse |
| Exploration.Explorer.PopAndMove | temple/src/student/Explorer.java:87-88 | pops the top of the move stack and moves onto it; the rest of the stack still leads to the new position |
| Exploration.Explorer.PopUntil | temple/src/student/Explorer.java:86-90 | the do-while loop pops and moves until the popped tile is the fork: it ends on the fork, the fork is the first popped tile equal to it, what is left is a prefix of the old stack along which the remaining forks still lie, and the moves made are the popped part in reverse |
| Sequences.UnwoundStart | temple/src/student/Explorer.java:86-88 | the first pop of a move stack along which the forks and the popped fork lie is defined, leaves a prefix and records the popped tile |
| Sequences.UnwoundStep | temple/src/student/Explorer.java:86-90 | while the popped tile is not the fork the stack left is not empty, so the next pop is defined and keeps the fork stack along the stack left |
| Exploration.Explorer.GoBackToLastFork | temple/src/student/Explorer.java:82-91 | fails exactly when `forks` is empty, then changing nothing; otherwise pops one fork, ends on it, and shrinks the move stack by exactly the moves made (the popped part in reverse); the first popped tile equal to the fork is where it stops |
| Exploration.Explorer.MoveForward | temple/src/student/Explorer.java:65-77 | records the tile, pushes it on the move stack (and on the fork stack for a fork), moves to the neighbour, and keeps the invariant |
| Exploration.Explorer.Advance | temple/src/student/Explorer.java:65-77 | one candidate: move stack grows by the current tile, forks unchanged; several: both stacks grow by it; either way the move goes to the head of the candidate list |
| Exploration.Explorer.Backtrack | temple/src/student/Explorer.java:60-64 | no candidate: the tile is recorded, neither stack is pushed, and the explorer is back on the last fork, or no fork is left and the orb is unreachable from the start |
| Exploration.Explorer.Explore | temple/src/student/Explorer.java:45-80 | returns with `found` exactly when on the orb, always finds it when a walk from the start leads there, and never records the orb's tile as visited |
| Maze.MaxColumn | temple/src/student/Explorer.java:136-138 | the largest column: bounds every tile's column and is attained (0 for no tiles) |
| Maze.MaxRow | temple/src/student/Explorer.java:137-139 | the largest row (line 137 corrected, see Findings): bounds every tile's row and is attained (0 for no tiles) |
| Maze.MeasureGrid | temple/src/student/Explorer.java:135-144 | the first loop yields the grid extent: largest column plus 2 by largest row plus 2 (line 137 corrected, see Findings) |
| Maze.TilesInsideGrid | temple/src/student/Explorer.java:151-158 | every tile's cell is inside the grid and clear of the far walls, so the set-up's writes are in bounds |
| Maze.ExitOutsideGridAsWritten | temple/src/student/Explorer.java:137 | with the column read for the row, three tiles in one column put the exit's row outside the grid |
| Maze.PlaceTiles | temple/src/student/Explorer.java:151-159 | afterwards a cell is open exactly when some tile lies on it at (column, row) (line 137 corrected, see Findings), and nothing is expanded or on the route |
| Maze.CloseBorder | temple/src/student/Explorer.java:166-175 | every cell on the outer ring is cleared in all three grids; every other cell keeps its value |
| Maze.Maze.constructor | temple/src/student/Explorer.java:131-184 | a cell is open exactly when it is the exit, or holds a tile and is not on the outer ring; the other two grids are clear; start and exit are the tiles' (column, row) (line 137 corrected, see Findings) |
| Maze.Maze.FindPath | temple/src/student/Explorer.java:249-275 | true on the exit with no change; false with no change on a closed or expanded cell; otherwise expands the cell and returns exactly whether it was marked on the route; marks only grow, new route marks land only on newly expanded cells, route cells are expanded and expanded cells are open, a failed search marks nothing on the route, and success yields a marked neighbour-by-neighbour route to the exit |
| Maze.Maze.Try | temple/src/student/Explorer.java:254-273 | one neighbour's recursive call: the cell is marked on the route exactly when that call succeeds, and a failed call leaves the route marks unchanged |
| Maze.Maze.Solve | temple/src/student/Explorer.java:186-191 | success yields a marked route from the start to the exit through open cells; failure, the thrown exception, leaves the route marks unchanged |

## Left out

- Console output (lines 132, 160-165, 193-199): it does not affect any state.
- The host classes `ExplorationState`, `EscapeState`, `Node`, `Tile` and `NodeStatus` are not part of this model. They are given as inputs:
  - a set of tile ids;
  - a neighbour list per tile;
  - a distance function;
  - a current position;
  - (row, column) per tile.
- Exploration.Cave.MoveTo: the host raises an error on a move to a non-neighbour. Here that is a precondition, and every caller is proved to meet it.
- Assumptions about the host's neighbour lists:
  - they are symmetric;
  - a tile never lists itself;
  - no tile is listed twice.

  The host does not guarantee these in code that is part of this model; the proofs rely on them.
- Exploration.SortByDistance: the model assumes `NodeStatus` compares by distance alone. Ties stay in input order by construction, but that stability is not stated as a property.
- Exploration.Explorer.Explore: the `EmptyStackException` from popping an empty fork stack is modelled as returning false.
- Exploration.Explorer.Explore: `long` ids are unbounded integers. The code does no arithmetic on them.
- Maze.Maze.Solve: the `IllegalArgumentException` is modelled as returning false; that a false result means no route from the start exists is not proved (see FindPath).
- The `nodeMaze` and `graph` arrays (lines 146-147, 157, 171, 183): only the walking loop reads `nodeMaze`, and `graph` is allocated but never read.
- The walking loop (lines 204-223) is left out because it cannot work as written:
  - it never updates `currentX` or `currentY`;
  - it tests `&&` where `||` is meant;
  - its `< maxX` and `< maxY` guards allow an index one past the end.
- The commented-out `walkPath` (lines 225-248).
- The `Coord` holder (lines 277-287).
- Maze.Maze.FindPath: completeness is not proved. The model proves that a true result comes with a route, but not that a false result means no route exists.
- Maze.Maze.constructor: the start and exit tiles are required to be among the tiles, as the host guarantees. Java `int` overflow of `maxX + 2` is not modelled.
- Gold pickup, the time budget and shortest-path planning do not exist in this code.

## Findings

| source | as written | input that shows it | evidently intended | confidence | as-written member | corrected member |
|---|---|---|---|---|---|---|
| temple/src/student/Explorer.java:137 | `y` is read with `getColumn()`. The grid height comes from the largest column, and each tile goes on the diagonal cell (column, column). | Tiles at (row, column) = (1, 1), (2, 1), (3, 1), with the exit at (3, 1). Then `maxY` = 3, `endY` = 3, and `nodeMaze[1][3]` at line 183 is out of bounds. | `y = getRow()`, matching lines 180 and 182 | not executed | Maze.ExitOutsideGridAsWritten | Maze.TilesInsideGrid |
