# Trap the cat: hex-grid pathfinding, modelled in Dafny

The game is played on a rectangular board of hexagonal tiles in the
"odd-row offset" layout. A tile's two diagonal neighbours lie to the left on
even rows and to the right on odd rows. The cat starts in the centre. Each
click blocks a free tile, and the cat then takes one step along a shortest
route to the border. The player wins when the cat is trapped and loses when
the cat reaches an edge.

Three interchangeable strategies look for the cat's way out, and all return
a `PathfindingResult`: the tiles in the order they were explored, and a path
from the start to the first border tile found. The path is empty when the
cat is enclosed, and then no explored tile lies on the border.

- Breadth-first search uses a FIFO queue.
- Depth-first search uses a LIFO stack.
- A* orders its open set by cost plus distance to the nearest edge. It skips
  stale entries and relaxes a neighbour only on a strict improvement.

`PathState` caches each tile's neighbour list. It also caches one path per
strategy and start tile, and recomputes a path only when it is missing or a
neighbour of the start tile is flagged as changed.

The model is organised as the program is:

- `strategy_utils.dfy` (`StrategyUtils`) covers both copies of the utility
  class: the offset tables, neighbour lists, the border test and
  `reconstructPath`.
- `board.dfy` (`Board`) defines the board of blocked flags. It also defines,
  independently of any search, what an escape route is, when one exists and
  when one is shortest.
- `results.dfy` (`Results`) defines `PathfindingResult` and the contract all
  three strategies meet.
- `frontier.dfy` (`Frontier`) is the neighbour loop that breadth-first and
  depth-first search share.
- `bfs.dfy`, `dfs.dfy` and `astar.dfy` are the three strategies.
- `strategies.dfy` is the strategy interface, as a datatype.
- `path_state.dfy` (`PathStates`) is the cache.
- `game.dfy` (`HexGame`) holds the game's state rules.

Java objects that change in place are modelled as values, and each operation
returns the new value. Tiles are `(row, column)` pairs instead of objects
compared by identity. Parent maps carry a ghost rank that falls along every
link, which makes reconstruction terminate.

## Model

| member | source | states |
|---|---|---|
| `StrategyUtils.Directions` | src/main/java/com/example/hexgame/utils/StrategyUtils.java:31-35 | For every row of the board (row ≥ 0), `getDirections(row)` is the same table as `DIR_CACHE[row % 2]`. |
| `StrategyUtils.JavaParity` | src/main/java/com/example/hexgame/utils/StrategyUtils.java:18 | Java's truncating `i % 2` is -1, 0 or 1. It is 0 exactly for even rows, so it chooses the same table as an evenness test. It equals the mathematical remainder for rows ≥ 0 and is never positive for negative rows. |
| `StrategyUtils.Shift` | src/StrategyUtils.java:8-13 | The bounds-filtering loop keeps at most one tile per offset. A tile is kept iff it lies inside the board and one offset of the table reaches it. When every offset stays inside, no tile is dropped. |
| `StrategyUtils.ShiftSnoc` | src/main/java/com/example/hexgame/utils/StrategyUtils.java:21-27 | One iteration of the loop over the table: the tiles kept so far, then the current offset's tile if it lies inside the board. |
| `StrategyUtils.Neighbors` | src/StrategyUtils.java:5-15 | `getNeighbors` returns at most 6 tiles. The list contains exactly the in-bounds tiles that the row's offset table reaches. |
| `StrategyUtils.CachedNeighbors` | src/main/java/com/example/hexgame/utils/StrategyUtils.java:16-29 | The packaged `getNeighbors` indexes `DIR_CACHE` by Java's `tile.i % 2`. For every row except a negative odd one, where that index is -1, it returns the same list as the root-package copy. |
| `StrategyUtils.IsAtBorder` | src/StrategyUtils.java:23-25 | A tile of the board is on the border iff it is not interior, that is, not 1 ≤ i < rows-1 and 1 ≤ j < cols-1. |
| `StrategyUtils.InteriorHasSixNeighbors` | src/main/java/com/example/hexgame/utils/StrategyUtils.java:21-27 | A tile off the border gets exactly six neighbours, in offset-table order. |
| `StrategyUtils.ShiftAllInBounds` | src/StrategyUtils.java:8-13 | When every offset stays inside the board, the k-th tile of the list is the k-th offset applied to the tile. |
| `StrategyUtils.ReverseOffset` | src/main/java/com/example/hexgame/utils/StrategyUtils.java:12-13 | The reverse of any offset in a row's table is in the table of the row it leads to, so the even and odd tables mirror each other. |
| `StrategyUtils.AdjacentSymmetric` | src/main/java/com/example/hexgame/utils/StrategyUtils.java:21-26 | If b is a neighbour of a, then a is a neighbour of b. |
| `StrategyUtils.Walkback` | src/StrategyUtils.java:29-33 | The list the loop builds starts at `end`, and each tile's parent follows it. It stops at the first tile without a parent and never repeats a tile. |
| `StrategyUtils.Reverse` | src/StrategyUtils.java:34 | `Collections.reverse` keeps the length and moves element k to position n-1-k. |
| `StrategyUtils.ReconstructPath` | src/main/java/com/example/hexgame/utils/StrategyUtils.java:41-50 | With a null end the path is empty. Otherwise it ends at `end`, its first tile has no parent, each tile is the parent of the next, and no tile repeats. |
| `StrategyUtils.ReversedWalkback` | src/StrategyUtils.java:27-36 | Reversing the child-to-parent list gives a parent-to-child list without repeats. |
| `StrategyUtils.ReconstructRoot` | src/StrategyUtils.java:29-33 | A tile with no parent reconstructs to a path that holds just that tile. |
| `StrategyUtils.ReconstructStep` | src/StrategyUtils.java:27-36 | The path to a tile that has a parent is the path to the parent, followed by the tile. |
| `Board.EnclosedTraps` | src/BFSStrategy.java:14-30 | Take a region of non-border tiles that holds the start and every unblocked neighbour of its members. Then no escape route exists, and this is why an empty frontier means the cat is trapped. |
| `Board.TileSeqBound` | src/BFSStrategy.java:6 | A repeat-free list of board tiles has at most rows × cols elements, the size of the `visited` array. |
| `Results.BorderStartResult` | src/BFSStrategy.java:15-21 | A search from a border tile explores only the start, and its path is `[start]`. So `getNodesExplored()` and `getPathLength()` are both 1: the length counts tiles, not steps. |
| `Results.PathNoLongerThanExplored` | src/PathfindingResult.java:12-18 | For a sound result, `getPathLength()` ≤ `getNodesExplored()`. |
| `Results.TreePath` | src/StrategyUtils.java:27-36 | Reconstructing from a tile of a search tree gives a walk from the start through unblocked hex neighbours. Its tiles were all explored, and it has at most rank+1 tiles. |
| `Results.OutcomeResult` | src/StrategyUtils.java:27-36 | Reconstructing the path from a search's exit gives a sound result. The path is empty iff no exit was found, and then no explored tile is on the border. Otherwise it escapes through explored tiles to the last one. When the exit is a nearest one, the path is a shortest escape route. |
| `Results.TrappedVisitsNoBorder` | src/BFSStrategy.java:18-21 | A search stops at the first border tile it polls, so a trapped search never polls one: with no escape route, no tile of the search tree is on the border. |
| `Frontier.Discover` | src/BFSStrategy.java:23-29 | In the neighbour loop, only unblocked and unvisited neighbours are appended, each once. They become visited children of the current tile, and everything recorded before is kept. Afterwards every unblocked neighbour is visited. |
| `BfsStrategy.Expand` | src/BFSStrategy.java:15-29 | Polling a non-border tile and enqueueing its neighbours keeps the queue invariant. Either the queue advances or the set of unvisited tiles shrinks. |
| `BfsStrategy.ExitNearest` | src/BFSStrategy.java:18-21 | No escape route has fewer steps than the depth of the first border tile polled. |
| `BfsStrategy.QueueExhausted` | src/BFSStrategy.java:14 | When the queue runs empty, no escape route exists. |
| `BfsStrategy.Poll` | src/BFSStrategy.java:14-30 | The loop ends with the queue empty or with a border tile at its head. Every tile polled before then was off the border and had its neighbours enqueued. |
| `BfsStrategy.Search` | src/BFSStrategy.java:5-30 | The polled tiles start at `start` and never repeat. The loop stops at a border tile iff an escape route exists, and that tile is the nearest one. |
| `BfsStrategy.FindPath` | src/BFSStrategy.java:4-34 | The result meets the common contract. `visitedOrder` has no repeats and at most rows × cols tiles. A non-empty path is a shortest escape route. |
| `DfsStrategy.Expand` | src/main/java/com/example/hexgame/algorithms/DFSStrategy.java:20-34 | Popping a non-border tile appends it to the visited order and pushes its new neighbours. The invariant holds, and either the stack shrinks or the unvisited set shrinks. |
| `DfsStrategy.ExitFound` | src/main/java/com/example/hexgame/algorithms/DFSStrategy.java:23-26 | Stopping at a popped border tile: it ends the visited order, and its parent chain is an escape route. |
| `DfsStrategy.StackEmptied` | src/main/java/com/example/hexgame/algorithms/DFSStrategy.java:19 | When the stack runs empty, no escape route exists. |
| `DfsStrategy.Search` | src/main/java/com/example/hexgame/algorithms/DFSStrategy.java:19-35 | The popped tiles start at `start` and never repeat. The search stops at a border tile iff an escape route exists. |
| `DfsStrategy.FindPath` | src/main/java/com/example/hexgame/algorithms/DFSStrategy.java:9-39 | The result meets the common contract. `visitedOrder` has no repeats and at most rows × cols tiles. |
| `AStarStrategy.Heuristic` | src/main/java/com/example/hexgame/algorithms/AStarStrategy.java:43-49 | On the board the heuristic is ≥ 0, and it is 0 exactly on border tiles. |
| `AStarStrategy.HeuristicStep` | src/main/java/com/example/hexgame/algorithms/AStarStrategy.java:43-48 | The heuristics of two hex neighbours differ by at most one, so the heuristic is consistent. |
| `AStarStrategy.HeuristicAdmissible` | src/main/java/com/example/hexgame/algorithms/AStarStrategy.java:43-48 | The heuristic never exceeds the number of steps of an escape route. |
| `AStarStrategy.MakeNode` | src/main/java/com/example/hexgame/algorithms/AStarStrategy.java:55-59 | A node keeps its tile and cost. On the board its priority is at least its cost, and equal to it exactly on border tiles. |
| `AStarStrategy.RoutePriority` | src/main/java/com/example/hexgame/algorithms/AStarStrategy.java:55-59 | Take the k-th tile of an escape route with a cost of at most k. A `Node` for it has priority `f` no larger than the route's number of steps. |
| `AStarStrategy.Relax` | src/main/java/com/example/hexgame/algorithms/AStarStrategy.java:26-36 | Only the unblocked neighbours whose best cost strictly improves get the new cost, the current tile as parent and a new open entry. Nothing else changes, and no best cost rises. |
| `AStarStrategy.Visit` | src/main/java/com/example/hexgame/algorithms/AStarStrategy.java:16-20 | The polled entry leaves the open set and every other entry stays. Its tile joins the visited order, and costs and parents are untouched. |
| `AStarStrategy.Poll` | src/main/java/com/example/hexgame/algorithms/AStarStrategy.java:16-36 | A stale entry (g above the tile's best cost) is dropped, and its tile does not join the visited order. Otherwise the tile joins the visited order. The search stops exactly when that tile is on the border. |
| `AStarStrategy.Expand` | src/main/java/com/example/hexgame/algorithms/AStarStrategy.java:26-35 | Expanding a polled tile relaxes its neighbours at one step beyond the entry's cost. |
| `AStarStrategy.MinIndex` | src/main/java/com/example/hexgame/algorithms/AStarStrategy.java:16 | The entry chosen has the least priority `f` in the open set. |
| `AStarStrategy.InitInv` | src/main/java/com/example/hexgame/algorithms/AStarStrategy.java:11-12 | The initial state (start at cost 0, one open entry) satisfies the search invariant. |
| `AStarStrategy.StaleStep` | src/main/java/com/example/hexgame/algorithms/AStarStrategy.java:18 | Skipping a stale entry keeps the invariant and shrinks the open set. |
| `AStarStrategy.ExpandStep` | src/main/java/com/example/hexgame/algorithms/AStarStrategy.java:26-35 | Expanding a non-stale, non-border tile keeps the invariant, and the termination measure goes down. |
| `AStarStrategy.ExitNearest` | src/main/java/com/example/hexgame/algorithms/AStarStrategy.java:20-24 | A non-stale border entry of least priority is as near as a border tile can be: every escape route is longer than its best cost. |
| `AStarStrategy.ExitFound` | src/main/java/com/example/hexgame/algorithms/AStarStrategy.java:20-24 | Stopping at a non-stale border entry: it ends the visited order, and the parent map reaches it from the start. |
| `AStarStrategy.Exhausted` | src/main/java/com/example/hexgame/algorithms/AStarStrategy.java:15 | When the open set runs empty, no escape route exists. |
| `AStarStrategy.Search` | src/main/java/com/example/hexgame/algorithms/AStarStrategy.java:5-37 | The visited order starts at `start`. The exit is found iff an escape route exists, it is the last tile visited, and it is a nearest border tile. |
| `AStarStrategy.FindPath` | src/main/java/com/example/hexgame/algorithms/AStarStrategy.java:5-41 | The result meets the common contract, and a non-empty path is a shortest escape route. |
| `Strategies.FindPath` | src/main/java/com/example/hexgame/algorithms/PathfindingStrategy.java:7 | All three strategies meet the common contract. BFS and A* return shortest routes. BFS and DFS explore each tile at most once. |
| `Strategies.SameLength` | src/main/java/com/example/hexgame/algorithms/AStarStrategy.java:5-41 | Take two sound results whose non-empty paths are shortest. Their paths have equal length. |
| `Strategies.AStarMatchesBfs` | src/main/java/com/example/hexgame/algorithms/AStarStrategy.java:5-41 | Whatever A*'s tie-breaking, its path has the same length as the breadth-first path. |
| `Strategies.CentreOfFive` | src/BFSStrategy.java:4-34 | On an empty 5 × 5 board, searching from (2, 2) by BFS or A* yields a path of 3 tiles. BFS explores at most 25 tiles. |
| `PathStates.ComputeNeighbors` | src/main/java/com/example/hexgame/utils/PathState.java:40-55 | `computeNeighbors` returns the same list as `StrategyUtils.getNeighbors`. |
| `PathStates.PrecomputeNeighbors` | src/main/java/com/example/hexgame/utils/PathState.java:31-38 | Exactly the board's tiles are mapped, and each one maps to its neighbour list. |
| `PathStates.New` | src/main/java/com/example/hexgame/utils/PathState.java:16-24 | The new state has BFS active and no cached paths. When `grid[0][0]` exists, every board tile is mapped to its neighbour list; otherwise the neighbour cache is empty. |
| `PathStates.SetStrategy` | src/main/java/com/example/hexgame/utils/PathState.java:26-29 | The given strategy becomes active and every cached path is dropped. The neighbour cache is kept. |
| `PathStates.GetNeighbors` | src/main/java/com/example/hexgame/utils/PathState.java:57-60 | For a null tile, or a tile the cache does not know, the result is empty. |
| `PathStates.GetNeighborsOfNew` | src/main/java/com/example/hexgame/utils/PathState.java:57-60 | Over a filled cache, `getNeighbors` returns `StrategyUtils.getNeighbors` for a board tile and empty for any other tile. |
| `PathStates.AnyChanged` | src/main/java/com/example/hexgame/utils/PathState.java:78-81 | The early-return loop answers true iff some tile of the list is flagged as changed. |
| `PathStates.GridChanged` | src/main/java/com/example/hexgame/utils/PathState.java:77-82 | True iff some cached neighbour of `start` is flagged as changed. |
| `PathStates.GetPath` | src/main/java/com/example/hexgame/utils/PathState.java:84-90 | With no entry for the active strategy and `start`, the result is empty. |
| `PathStates.SetStrategyForgets` | src/main/java/com/example/hexgame/utils/PathState.java:26-29 | After `setStrategy`, `getPath` is empty for every tile. |
| `PathStates.UpdatePath` | src/main/java/com/example/hexgame/utils/PathState.java:62-75 | A null start changes nothing. Otherwise the entry for (active strategy, start) exists afterwards. When it was missing or a neighbour changed, it holds a fresh escape path: empty iff the cat is trapped, and a shortest route under BFS and A*. Otherwise it is unchanged. No other entry, the neighbour cache and the active strategy do not change. |
| `PathStates.UpdateThenGet` | src/main/java/com/example/hexgame/utils/PathState.java:84-90 | Right after `updatePath(t)`, `getPath(t)` returns the recomputed path when one was due, meeting the active strategy's contract, and the stored path when it was kept. Every other tile's answer is unchanged. |
| `HexGame.GameDirections` | src/Game.java:289-293 | `Game.getDirections` returns the same table as `StrategyUtils.getDirections`. |
| `HexGame.GameNeighbors` | src/Game.java:273-283 | `Game.getNeighbors` returns the same list as `StrategyUtils.getNeighbors`. |
| `HexGame.KeepInBounds` | src/Game.java:276-281 | The loop returns each offset's tile that lies inside the board, in table order. |
| `HexGame.FirstStep` | src/Game.java:142-145 | Following parents from the exit stops at the tile whose parent is the cat, which is the second tile of the path to the exit. |
| `HexGame.MoveCatOneStep` | src/Game.java:113-156 | With no escape route the cat stays and the game is over. Otherwise the cat moves to an unblocked neighbour that is the second tile of a shortest escape route, and the game is over afterwards iff it was already over or that tile is on the border: the flag is set, never cleared. The board and the move count are unchanged. |
| `HexGame.HandleTileClick` | src/Game.java:98-111 | A click is ignored once the game is over, and on a blocked tile or the cat's tile. Otherwise it blocks the tile and adds exactly one move. The cat then stays and the game ends if it is trapped; otherwise it steps onto the second tile of a shortest escape route on the new board. The cat's tile is never blocked. |
| `HexGame.PlaceObstacles` | src/Game.java:84-96 | The placed tiles are exactly the accepted draws, in draw order (`Accepted`). A draw is accepted when it is free, not the cat's tile and not within two rows and two columns of the centre. At most 15 distinct tiles are blocked, all of them drawn. The cat's tile and the tiles near the centre keep their flags. With fewer than 15 placed, every draw is blocked or rejected. |

## Left out

- The Swing user interface of `Game`: window, layout, colours, the animation timer and enabling of controls.
- The game-over popup of `moveCatOneStep`: its "Play Again" choice runs `resetGame`, which unblocks every tile, puts the cat back at the centre, places new obstacles and resets the flag and the move count; its other choice exits the process. The model stops at the state `moveCatOneStep` sets before the popup, with the game over, and does not model the restart or the exit.
- `Random` in `placeObstacles`: the draws are a finite sequence given as input. The Java loop draws until 15 tiles are placed, and that loop need not end on a board with fewer free tiles.
- `Tile` as a button class: a tile is a `(row, column)` pair. Its blocked flag lives in the board, and the cat's position lives in the game state.
- `stateChanged`: no code of this model sets or clears it, so it is an input set of flagged tiles.
- The fixed 11 × 11 board of `Game` and its centre start: the game rules are stated for any board.
- `Game.isAtBorder`: it is the same expression as `StrategyUtils.isAtBorder` over the game's dimensions, and the model uses `IsAtBorder` directly.
- The packaged `com.example.hexgame.algorithms.BFSStrategy` that `PathState` creates as its default strategy is not part of this model. It is assumed to behave like the root-package `BFSStrategy`, so `PathStates.New` makes `BFS` the active strategy, `PathStates.UpdatePath` then runs `Strategies.FindPath(BFS)`, and the "shortest route under BFS" of `PathStates.UpdatePath` rests on that assumption.
- The breadth-first loop inside `moveCatOneStep`: it polls and marks tiles as `BFSStrategy.findPath` does, so the model reuses `BfsStrategy.Search`.
- `HexGame.MoveCatOneStep`: requires the cat off the border, because from a border tile the Java first-step walk never ends. Play never calls it there, since reaching the border ends the game.
- `HexGame.HandleTileClick`: requires a playable state, with the cat on a free tile and off the border while the game goes on. Every state that play reaches is playable.
- The exact visited order of A*: Java's heap is not stable, so `MinIndex` picks some entry of least priority. Every A* property here holds for any such choice.
- `AStarStrategy.FindPath`: it does not state that the visited order is free of repeats or bounded by rows × cols. The breadth-first and depth-first searches do state both.
- Integer overflow: costs and list lengths are at most rows × cols, far below Java's `int` range. `Integer.MAX_VALUE` as the default best cost is modelled as "no entry".
- `PathfindingResult`'s constructor, final fields and two getters are the datatype's fields and their lengths. They carry no separate contract, and `Results.BorderStartResult` and `Results.PathNoLongerThanExplored` state what the getters report.
- `PathfindingStrategy` is a datatype, and the cache key is its constructor rather than the class's simple name.

## Notes

- Ties in the A* open set go to whichever least-priority entry `PriorityQueue.poll` returns; no insertion-order tie-break is assumed.
- Blocked and cat flags are not mutually exclusive in `Tile`. The cat's tile stays unblocked only because obstacle placement and the click handler both refuse it, and the model proves that from those two guards.
