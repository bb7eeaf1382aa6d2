# Grid search engine of the A* pathfinding visualiser

This project models the engine of class `Game` in the A* pathfinding
visualiser, and proves properties of it. The engine has these parts:

- a fixed 16x16 grid of cells, stored row-major as `mGrid[y][x]`;
- the bounds check on tile coordinates;
- the reset pass `initNodes` and the connection pass `createConnections`,
  which give every cell the list of its east, south, west and north
  neighbours that lie in the grid and are not obstacles;
- the heuristic table (Manhattan, squared Euclidean "Pythagorean", and zero);
- the search `solve`, which runs over a max-priority queue of cells;
- the rule that turns a released mouse button into an edit followed by a
  new solve.

The model follows the code:

- Connectivity is 4-way only.
- `solve` begins with the reset, so every obstacle is cleared before the
  search, and a middle-click toggle is erased by the solve that follows it.
- The start's local goal is never set to zero. Every local goal stays at
  the sentinel `INFINITY`, so the improvement test never succeeds, and no
  parent or goal is ever written.
- The queue may hold a cell many times. The loop stops only when the queue
  is empty, not when the goal is reached.

As a result a solve is a flood fill. Every cell reachable from the start
through the lists ends up visited, and on the reset grid that is every
cell. No parent link is set, so there is never a path to draw.

Textbook A* would add diagonal moves, a start cost of 0, obstacles that
persist across solves and errors for out-of-bounds coordinates. This code
has none of them, and neither does the model.

Layout:

- `grid.dfy` (module `Grid`): the constants, `Coord`, `Node`, the bounds
  check, and the pixel-to-tile division.
- `heuristics.dfy` (module `Heuristics`): the three heuristics and the
  dispatch on `HeuristicType`.
- `connectivity.dfy` (module `Connectivity`): the neighbour list as a
  function of the obstacle set, with its properties.
- `reachability.dfy` (module `Reachability`): walks through the lists, and
  the invariant and termination measure of the search.
- `game.dfy` (module `Engine`): class `Game`. It has the grid as an
  `array2<Node>` and the start and goal as fields. Its methods are the
  reset, the connection pass, the search loop, the solve and the click
  handler.

Pointers are replaced by coordinates. A neighbour entry, a parent link, the
start and the goal are each a `Coord` that names a cell of the one grid.

## Model

| member | source | states |
|---|---|---|
| Grid.IsValidCoordinates | game.cpp:92-95 | A pair passes the bounds check exactly when it names one of the 256 cells of the grid. |
| Grid.TileOf | game.cpp:120-121 | The tile of a pixel is its quotient by the tile size truncated toward zero: a non-negative pixel p gets the tile t >= 0 with 40t <= p < 40t + 40, and a negative pixel gets t <= 0 with 40t - 40 < p <= 40t. `TileOfWindowPixel`, `TileOfJustOutside` and `TileOfRoundTrip` state what follows for the click handler. |
| Grid.TileOfWindowPixel | game.hpp:21-24 | A pixel inside the 650-pixel window maps to a tile index in [0, 16]. Only the trailing 10-pixel border maps to 16, and the bounds check rejects exactly that strip. |
| Grid.TileOfJustOutside | game.cpp:120-122 | Integer division truncates toward zero, so a release up to 39 pixels left of or above the window still maps to tile 0 and passes the bounds check. |
| Grid.TileOfRoundTrip | game.cpp:120-121 | Every pixel of tile t maps back to t. |
| Grid.SentinelNeverImproved | game.hpp:25 | The stand-in sentinel 266 exceeds the number of cells, and adding a non-negative cost to it never gives something smaller. That is the one property of `INFINITY` (+infinity in game.cpp:47-48) that the search relies on. |
| Heuristics.Manhattan | game.cpp:57-59 | The Manhattan distance is never negative. |
| Heuristics.Pythagorean | game.cpp:61-63 | The squared Euclidean distance is never negative. |
| Heuristics.Heuristic | game.cpp:54-68 | Every entry of the table is non-negative, and the zero entry always gives 0. |
| Heuristics.HeuristicSymmetric | game.cpp:57-67 | Each heuristic gives the same value with its two cells swapped. |
| Heuristics.HeuristicZeroIffSamePosition | game.cpp:57-63 | Manhattan and Pythagorean are 0 exactly when the two cells have the same coordinates. |
| Heuristics.HeuristicOfAdjacent | game.cpp:57-63 | For two cells that share a side, Manhattan and Pythagorean both give 1. |
| Heuristics.ManhattanTriangle | game.cpp:57-59 | Manhattan obeys the triangle inequality. |
| Heuristics.PythagoreanNotConsistent | game.cpp:61-63 | Pythagorean breaks the triangle inequality: across two unit steps it gives 4, not at most 2. |
| Connectivity.NeighboursUpTo | game.cpp:79-87 | After the first k directions the list has at most k entries, and each entry shares a side with the cell, is in bounds, and is not an obstacle. |
| Connectivity.NeighbourList | game.cpp:78-87 | The list a cell is given has at most 4 entries, each sharing a side with the cell, in bounds and not an obstacle. `NeighbourListMembership` and `NeighbourListOrdered` state the rest: exactly those cells, in E, S, W, N order. |
| Connectivity.NeighboursUpToMembers | game.cpp:79-87 | After the first k directions the list holds exactly the open cells in those directions. |
| Connectivity.NeighboursUpToOrdered | game.cpp:79-87 | After the first k directions the list is in direction order: an earlier entry lies in an earlier direction. |
| Connectivity.NeighbourListMembership | game.cpp:70-90 | A cell's list holds a cell exactly when that cell shares a side with it, is in bounds, and is not an obstacle. The list never holds the cell itself. |
| Connectivity.ListsStayInGrid | game.cpp:83-85 | Every list entry names a cell of the grid. |
| Connectivity.NeighbourListOrdered | game.cpp:72-73 | A list is in E, S, W, N order, has no repeated entry, and has at most 4 entries. |
| Connectivity.NeighbourSymmetry | game.cpp:81-86 | Two in-bounds, non-obstacle cells that share a side each appear in the other's list. |
| Connectivity.ObstacleInNoList | game.cpp:83-86 | An obstacle appears in no list. |
| Connectivity.ObstacleKeepsOwnList | game.cpp:76-86 | A cell gets the same list whether or not it is an obstacle itself. A lone obstacle still has at least 2 entries. |
| Connectivity.OpenNeighbourCount | game.cpp:44-51 | With no obstacles, a corner cell has 2 neighbours, another border cell 3, and an interior cell 4. |
| Reachability.OpenGridConnected | game.cpp:70-90 | In the obstacle-free grid every cell is reachable from every other through the lists. |
| Reachability.OpenGridReachesAll | game.cpp:145-153 | From any start cell of the reset grid, all 256 cells are reachable. |
| Reachability.ClosedContainsReachable | game.cpp:156-160 | A set of cells that contains the list of each of its members, and contains the start, contains every cell reachable from the start. |
| Reachability.Without | game.cpp:171 | Removing the processed entry from the queue takes out exactly one copy of its cell: the multiset of entries loses that one element, and every other entry stays with its multiplicity. |
| Reachability.Unvisited | game.cpp:156-160 | What one pass over a list pushes: a cell is in it exactly when it is in the list and not visited, and it is no longer than the list. |
| Reachability.UnvisitedIndicesExact | game.cpp:156-160 | The positions one pass over a list pushes from are exactly the positions of its unvisited entries, in increasing order. |
| Reachability.UnvisitedIsSubsequence | game.cpp:156-160 | What one pass pushes is the subsequence of the list at those positions: each unvisited entry once, in list order. |
| Reachability.ExhaustedFrontier | game.cpp:153 | When the queue is empty, the visited cells are exactly the cells reachable from the start. |
| Reachability.ExpandKeepsFrontier | game.cpp:155-171 | Marking the top cell, pushing its unvisited neighbours and popping the entry keeps the search invariant. Every visited cell and every queued cell is reachable, and every neighbour of a visited cell is visited or queued. |
| Reachability.ExpandDecreases | game.cpp:153-171 | Each turn either visits one more cell, or pops an entry whose cell was already visited, so the number of such stale entries drops. This proves the loop terminates. |
| Reachability.TurnKeepsInvariant | game.cpp:154-171 | One turn as the engine runs it (mark the entry's cell, append its unvisited listed cells in list order, then remove that entry) keeps the invariant and lowers the termination measure. |
| Engine.Game.constructor | game.cpp:5-15 | Every cell is reset, the start is (0, 0), the goal is (15, 15), and nothing is searched. |
| Engine.Game.InitNodes | game.cpp:36-52 | Each cell gets its own coordinates, no obstacle, no visit, no parent, both goals at the sentinel, and the list of the obstacle-free grid. |
| Engine.Game.CreateConnections | game.cpp:70-90 | Every list is rebuilt from empty from the obstacles present before the pass. No other field of any cell changes. |
| Engine.Game.ConnectCell | game.cpp:78-87 | One cell's list becomes exactly its list for the given obstacles. No other cell changes. |
| Engine.Game.TopIndex | game.cpp:146-149 | The queue top is an entry whose global goal is at least that of every other entry. |
| Engine.Game.Search | game.cpp:146-172 | The loop terminates. Afterwards a cell is visited exactly when it is reachable from the start through the lists. No other field of any cell changes. |
| Engine.Game.SearchStep | game.cpp:153-171 | One turn adds exactly the top entry's cell to the visited cells. The new queue is the old one with that cell's unvisited listed cells appended in list order and the top entry removed. The only change to the grid is that cell's visited flag. The turn keeps the search invariant and lowers the termination measure. |
| Engine.Game.Visit | game.cpp:154-170 | The top cell is marked visited, and the queue gains exactly its listed cells that are not yet visited, once each, in list order. Nothing else changes. |
| Engine.Game.Expand | game.cpp:156-170 | The queue gains exactly the unvisited listed cells, once each, in list order, after the existing entries. No cell changes. |
| Engine.Game.ConsiderNeighbour | game.cpp:158-169 | A listed cell is appended to the queue exactly when it is not visited, and no cell changes. |
| Engine.Game.TryImprove | game.cpp:161-168 | With both local goals at the sentinel the improvement test fails, so no parent or goal of any cell changes. The proof rests on `Grid.SentinelNeverImproved`. |
| Engine.Game.ResetGridIsValid | game.cpp:42-51 | A fully reset grid keeps the class invariant, and its lists are those of the obstacle-free grid. |
| Engine.Game.Solve | game.cpp:143-173 | After a solve every cell is reset and visited. So no obstacle survives, no parent is set, and no goal leaves the sentinel. |
| Engine.Game.OnMouseReleased | game.cpp:118-137 | A release outside the grid changes nothing. A release inside the grid moves the start (left button) or the goal (right button) to that tile, and then solves. So whichever button was used, and even after a middle-click toggle, every cell ends reset and visited. |

## Left out

- The SFML window, its centring, the run loop and frame timing: these are I/O and timing.
- Rendering and `drawLine`, including the walk from the goal along parent links: these are drawing with floating point. After a solve no parent is set (see `Engine.Game.Solve`), so the walk draws nothing.
- Event polling and the window-close event: a released button is modelled as a button kind and a pixel position.
- `float` goals: every goal the engine ever stores is the reset sentinel, so goals are `int`.
- The sentinel value: game.cpp includes `<cmath>` after game.hpp, so at game.cpp:47-48 `INFINITY` is the floating-point +infinity macro, not the class constant of game.hpp:25, and the goals hold +infinity. The model stores the class constant 266 in its place. The search relies only on a non-negative cost added to the sentinel not falling below it, which holds for both (`Grid.SentinelNeverImproved`).
- `std::function` and `std::map` dispatch: the table is a function over the `HeuristicType` datatype.
- The heap layout of `std::priority_queue`: the queue is a sequence of coordinates. All keys are equal, so the library's choice of top among them is not modelled.
- Engine.Game.TopIndex: takes the earliest entry of largest key. The library may return any entry of largest key, and the rest of the model depends only on the stated maximality.
- The improvement branch is written as one conditional value stored back into the neighbour's cell, not as three separate field assignments. It never runs, so this does not change the model.
- Pointer identity: cells are named by coordinates, so aliasing between `mStart`, `mGoal` and grid cells is modelled as equality of coordinates (start and goal may coincide).
