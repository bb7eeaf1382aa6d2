/** The search engine of the game: the 16x16 grid of cells, its reset and
    connection passes, the search from the start cell, and the mouse-click
    edits that move the start or the goal or toggle an obstacle and then
    search again. */
module Engine {
  import opened Grid
  import opened Heuristics
  import opened Connectivity
  import opened Reachability

  predicate InGrid(y: int, x: int)
  {
    0 <= y < GridHeight && 0 <= x < GridWidth
  }

  /** Row-major order of cells: (yy, xx) comes before (y, x). */
  predicate Before(yy: int, xx: int, y: int, x: int)
  {
    yy < y || (yy == y && xx < x)
  }

  /** The fields the reset loop writes, applied to one cell. */
  function Cleared(n: Node, c: Coord): Node
  {
    n.(x := c.x, y := c.y, isObstacle := false, isVisited := false,
       parent := None, localGoal := Infinity, globalGoal := Infinity)
  }

  /** The state a full reset leaves a cell in: its own coordinates, no
      obstacle, not visited, no parent, both goals at the sentinel, and the
      neighbour list of the obstacle-free grid. */
  function ResetCell(c: Coord): Node
  {
    Node(c.x, c.y, false, false, Infinity, Infinity, NeighbourList({}, c), None)
  }

  /** The state a solve leaves a cell in: a reset cell, marked visited. */
  function SolvedCell(c: Coord): Node
  {
    ResetCell(c).(isVisited := true)
  }

  class Game {
    /** mGrid, indexed [y, x]. */
    const grid: array2<Node>
    var start: Coord
    var goal: Coord

    ghost predicate Shaped()
      reads this
    {
      grid.Length0 == GridHeight && grid.Length1 == GridWidth
    }

    /** Every neighbour list points into the grid. */
    ghost predicate Linked()
      reads this, grid
    {
      Shaped() &&
      forall y, x, n :: InGrid(y, x) && n in grid[y, x].neighbours ==> n in AllCells()
    }

    /** The invariant every public operation keeps: start and goal designate
        cells of the grid, every cell stores its own coordinates, every list
        points into the grid, and no cell is an obstacle. */
    ghost predicate Valid()
      reads this, grid
    {
      Linked() && start in AllCells() && goal in AllCells() &&
      forall y, x :: InGrid(y, x) ==>
        grid[y, x].x == x && grid[y, x].y == y && !grid[y, x].isObstacle
    }

    /** The cells currently marked as obstacles. */
    ghost function Obstacles(): set<Coord>
      reads this, grid
      requires Shaped()
    {
      set c | c in AllCells() && grid[c.y, c.x].isObstacle
    }

    /** Every cell's neighbour list, keyed by the cell. */
    ghost function Links(): (links: map<Coord, seq<Coord>>)
      reads this, grid
      requires Shaped()
      ensures links.Keys == AllCells()
    {
      map c | c in AllCells() :: grid[c.y, c.x].neighbours
    }

    function GlobalGoalAt(c: Coord): int
      reads this, grid
      requires Shaped() && c in AllCells()
    {
      grid[c.y, c.x].globalGoal
    }

    /** Resets every cell, puts the start in the top-left and the goal in the
        bottom-right corner, and does not search. */
    constructor()
      ensures Valid() && fresh(grid)
      ensures start == Coord(0, 0) && goal == Coord(GridWidth - 1, GridHeight - 1)
      ensures forall y, x :: InGrid(y, x) ==> grid[y, x] == ResetCell(Coord(x, y))
    {
      grid := new Node[GridHeight, GridWidth];
      new;
      InitNodes();
      start := Coord(0, 0);
      goal := Coord(GridWidth - 1, GridHeight - 1);
      assert IsValidCoordinates(0, 0) && IsValidCoordinates(GridWidth - 1, GridHeight - 1);
    }

    /** Sets each cell's coordinates, clears its flags, parent and goals, then
        rebuilds every list; as the reset clears every obstacle, the lists are
        those of the obstacle-free grid. */
    method InitNodes()
      requires Shaped()
      modifies grid
      ensures forall y, x :: InGrid(y, x) ==> grid[y, x] == ResetCell(Coord(x, y))
    {
      for y := 0 to GridHeight
        invariant forall yy, xx :: InGrid(yy, xx) ==>
          grid[yy, xx] == if yy < y then Cleared(old(grid[yy, xx]), Coord(xx, yy)) else old(grid[yy, xx])
      {
        for x := 0 to GridWidth
          invariant forall yy, xx :: InGrid(yy, xx) ==>
            grid[yy, xx] == if Before(yy, xx, y, x) then Cleared(old(grid[yy, xx]), Coord(xx, yy)) else old(grid[yy, xx])
        {
          grid[y, x] := grid[y, x].(x := x, y := y, isObstacle := false, isVisited := false,
                                    parent := None, localGoal := Infinity, globalGoal := Infinity);
        }
      }
      assert Obstacles() == {};
      CreateConnections();
    }

    /** Rebuilds every cell's list from empty, in place, from the current
        obstacles; nothing else changes. */
    method CreateConnections()
      requires Shaped()
      modifies grid
      ensures forall y, x :: InGrid(y, x) ==>
        grid[y, x] == old(grid[y, x]).(neighbours := NeighbourList(old(Obstacles()), Coord(x, y)))
    {
      ghost var blocked := Obstacles();
      for y := 0 to GridHeight
        invariant forall yy, xx :: InGrid(yy, xx) ==>
          grid[yy, xx] == if yy < y then old(grid[yy, xx]).(neighbours := NeighbourList(blocked, Coord(xx, yy)))
                          else old(grid[yy, xx])
      {
        for x := 0 to GridWidth
          invariant forall yy, xx :: InGrid(yy, xx) ==>
            grid[yy, xx] == if Before(yy, xx, y, x) then old(grid[yy, xx]).(neighbours := NeighbourList(blocked, Coord(xx, yy)))
                            else old(grid[yy, xx])
        {
          ConnectCell(x, y, blocked);
        }
      }
    }

    /** The body of the connection pass for the cell at (x, y): clear its
        list, then append each of its E, S, W, N neighbours that is in bounds
        and not an obstacle. */
    method ConnectCell(x: int, y: int, ghost blocked: set<Coord>)
      requires Shaped() && InGrid(y, x)
      requires forall c :: c in AllCells() ==> (c in blocked <==> grid[c.y, c.x].isObstacle)
      modifies grid
      ensures grid[y, x] == old(grid[y, x]).(neighbours := NeighbourList(blocked, Coord(x, y)))
      ensures forall yy, xx :: InGrid(yy, xx) && (yy != y || xx != x) ==> grid[yy, xx] == old(grid[yy, xx])
    {
      grid[y, x] := grid[y, x].(neighbours := []);
      for dir := 0 to 4
        invariant grid[y, x] == old(grid[y, x]).(neighbours := NeighboursUpTo(blocked, Coord(x, y), dir))
        invariant forall yy, xx :: InGrid(yy, xx) && (yy != y || xx != x) ==> grid[yy, xx] == old(grid[yy, xx])
      {
        var nx := x + Dx[dir];
        var ny := y + Dy[dir];
        var open := IsValidCoordinates(nx, ny) && !grid[ny, nx].isObstacle;
        assert open == Open(blocked, Step(Coord(x, y), dir));
        if open {
          grid[y, x] := grid[y, x].(neighbours := grid[y, x].neighbours + [Coord(nx, ny)]);
        }
      }
    }

    /** The search loop over a freshly reset grid. The frontier holds
        coordinates and may hold one cell many times; the entry processed is
        any entry of largest global goal (the queue is a max-heap), and that
        same entry is removed after its unvisited neighbours are pushed.
        Afterwards a cell is visited exactly when it is reachable from the
        start through the lists, and no other field of any cell has changed:
        the relaxation never fires, since every local goal stays at the
        sentinel. */
    method Search()
      requires Valid()
      requires forall y, x :: InGrid(y, x) ==>
        !grid[y, x].isVisited && grid[y, x].localGoal == Infinity && grid[y, x].globalGoal == Infinity
      modifies grid
      ensures forall y, x :: InGrid(y, x) ==>
        grid[y, x] == old(grid[y, x]).(isVisited := Coord(x, y) in ReachableSet(old(Links()), start))
    {
      ghost var links := Links();
      ghost var visited: set<Coord> := {};
      var openSet: seq<Coord> := [start];
      ReachableFromItself(links, start);
      while openSet != []
        invariant Searching(links, visited, openSet) && |visited| <= |AllCells()|
        invariant forall y, x :: InGrid(y, x) ==>
          grid[y, x] == old(grid[y, x]).(isVisited := Coord(x, y) in visited)
        decreases |AllCells()| - |visited|, Stale(openSet, visited)
      {
        openSet, visited := SearchStep(openSet, links, visited);
      }
      ExhaustedFrontier(links, start, visited);
    }

    /** What holds between turns of the search: the lists are those of
        `links` and point into the grid, every goal is at the sentinel, the
        visited flags are exactly the cells of `visited`, and the frontier
        invariant holds. */
    ghost predicate Searching(links: map<Coord, seq<Coord>>, visited: set<Coord>, frontier: seq<Coord>)
      reads this, grid
    {
      Linked() && goal in AllCells() && links.Keys == AllCells() && visited <= AllCells() &&
      (forall y, x :: InGrid(y, x) ==>
        grid[y, x].neighbours == links[Coord(x, y)] && grid[y, x].localGoal == Infinity &&
        grid[y, x].globalGoal == Infinity && (grid[y, x].isVisited <==> Coord(x, y) in visited)) &&
      FrontierInvariant(links, start, visited, frontier)
    }

    /** The entry the queue processes next. Its comparator orders entries
        by `<` on their global goals, so the top is an entry of largest
        global goal; among equal goals any of them may be on top, and this
        model takes the earliest. */
    function TopIndex(frontier: seq<Coord>): (i: nat)
      reads this, grid
      requires Shaped() && frontier != []
      requires forall j :: 0 <= j < |frontier| ==> frontier[j] in AllCells()
      ensures i < |frontier|
      ensures forall j :: 0 <= j < |frontier| ==> GlobalGoalAt(frontier[j]) <= GlobalGoalAt(frontier[i])
    {
      if |frontier| == 1 then 0
      else
        var k := TopIndex(frontier[..|frontier| - 1]);
        if GlobalGoalAt(frontier[k]) < GlobalGoalAt(frontier[|frontier| - 1]) then |frontier| - 1 else k
    }

    /** One turn of the search loop: take an entry of largest global goal,
        mark its cell visited, push its unvisited neighbours in list order,
        then remove that entry. The frontier invariant survives, and either
        one more cell is visited or the frontier holds one stale entry fewer. */
    method SearchStep(frontier: seq<Coord>, ghost links: map<Coord, seq<Coord>>, ghost visited: set<Coord>)
      returns (next: seq<Coord>, ghost visitedNext: set<Coord>)
      requires frontier != [] && Searching(links, visited, frontier)
      modifies grid
      ensures visitedNext == visited + {frontier[old(TopIndex(frontier))]}
      ensures next == Without(frontier + Unvisited(links[frontier[old(TopIndex(frontier))]], visitedNext),
                              old(TopIndex(frontier)))
      ensures forall y, x :: InGrid(y, x) ==>
        grid[y, x] == old(grid[y, x]).(isVisited := Coord(x, y) in visitedNext)
      ensures Searching(links, visitedNext, next) && |visitedNext| <= |AllCells()|
      ensures |visitedNext| > |visited| ||
              (visitedNext == visited && Stale(next, visited) < Stale(frontier, visited))
    {
      var i := TopIndex(frontier);
      var current := frontier[i];
      visitedNext := visited + {current};
      assert InGrid(current.y, current.x) by { assert IsValidCoordinates(current.x, current.y); }
      assert links[current] == grid[current.y, current.x].neighbours;
      next := Visit(current, frontier, visited);
      TurnKeepsInvariant(links, start, visited, frontier, i);
      next := Without(next, i);
    }

    /** The processing of the top entry's cell: it is marked visited and its
        unvisited neighbours are pushed, once each, in list order. Only its
        visited flag changes. */
    method Visit(current: Coord, frontier: seq<Coord>, ghost visited: set<Coord>) returns (next: seq<Coord>)
      requires Linked() && current in AllCells() && goal in AllCells()
      requires forall y, x :: InGrid(y, x) ==>
        grid[y, x].localGoal == Infinity && (grid[y, x].isVisited <==> Coord(x, y) in visited)
      modifies grid
      ensures forall y, x :: InGrid(y, x) ==>
        grid[y, x] == old(grid[y, x]).(isVisited := Coord(x, y) in visited + {current})
      ensures next == frontier + Unvisited(old(grid[current.y, current.x].neighbours), visited + {current})
    {
      assert InGrid(current.y, current.x) by { assert IsValidCoordinates(current.x, current.y); }
      grid[current.y, current.x] := grid[current.y, current.x].(isVisited := true);
      next := Expand(current, frontier, visited + {current});
    }

    /** One pass of the loop over the processed cell's list: every neighbour
        not yet visited is pushed, once, in list order, and put through the
        improvement test. Every goal is at the sentinel, so the test fails
        and no cell changes. */
    method Expand(current: Coord, frontier: seq<Coord>, ghost visited: set<Coord>) returns (next: seq<Coord>)
      requires Linked() && current in AllCells() && goal in AllCells()
      requires forall y, x :: InGrid(y, x) ==>
        grid[y, x].localGoal == Infinity && (grid[y, x].isVisited <==> Coord(x, y) in visited)
      modifies grid
      ensures unchanged(grid)
      ensures next == frontier + Unvisited(grid[current.y, current.x].neighbours, visited)
    {
      next := frontier;
      assert InGrid(current.y, current.x) by { assert IsValidCoordinates(current.x, current.y); }
      var neighbours := grid[current.y, current.x].neighbours;
      assert forall n :: n in neighbours ==> n in AllCells();
      for k := 0 to |neighbours|
        invariant unchanged(grid)
        invariant next == frontier + Unvisited(neighbours[..k], visited)
      {
        assert frontier + Unvisited(neighbours[..k + 1], visited)
            == next + (if neighbours[k] in visited then [] else [neighbours[k]]) by {
          UnvisitedSnoc(neighbours, k, visited);
        }
        next := ConsiderNeighbour(current, neighbours[k], next, visited);
      }
      assert neighbours[..|neighbours|] == neighbours;
    }

    /** The body of that loop for one listed cell: if it is not visited,
        it is pushed and put through the improvement test. No cell changes. */
    method ConsiderNeighbour(current: Coord, neighbour: Coord, queue: seq<Coord>, ghost visited: set<Coord>)
      returns (next: seq<Coord>)
      requires Shaped() && current in AllCells() && neighbour in AllCells() && goal in AllCells()
      requires forall y, x :: InGrid(y, x) ==>
        grid[y, x].localGoal == Infinity && (grid[y, x].isVisited <==> Coord(x, y) in visited)
      modifies grid
      ensures unchanged(grid)
      ensures next == queue + (if neighbour in visited then [] else [neighbour])
    {
      assert InGrid(neighbour.y, neighbour.x) && InGrid(current.y, current.x) by {
        assert IsValidCoordinates(neighbour.x, neighbour.y);
        assert IsValidCoordinates(current.x, current.y);
      }
      next := queue;
      if !grid[neighbour.y, neighbour.x].isVisited {
        next := next + [neighbour];
        TryImprove(current, neighbour);
      }
    }

    /** The improvement test for a pushed neighbour and its three
        assignments, written back as one value. With both local goals at the
        sentinel the test fails, so no cell changes. */
    method TryImprove(current: Coord, neighbour: Coord)
      requires Shaped() && current in AllCells() && neighbour in AllCells() && goal in AllCells()
      requires grid[current.y, current.x].localGoal == Infinity
      requires grid[neighbour.y, neighbour.x].localGoal == Infinity
      modifies grid
      ensures unchanged(grid)
    {
      assert InGrid(current.y, current.x) && InGrid(neighbour.y, neighbour.x) && InGrid(goal.y, goal.x) by {
        assert IsValidCoordinates(current.x, current.y);
        assert IsValidCoordinates(neighbour.x, neighbour.y);
        assert IsValidCoordinates(goal.x, goal.y);
      }
      var cur := grid[current.y, current.x];
      var nb := grid[neighbour.y, neighbour.x];
      var goalNode := grid[goal.y, goal.x];
      var possiblyLowerGoal := cur.localGoal + Heuristic(ManhattanDistance, cur, nb);
      SentinelNeverImproved(Heuristic(ManhattanDistance, cur, nb));
      grid[neighbour.y, neighbour.x] :=
        if possiblyLowerGoal < nb.localGoal
        then nb.(parent := Some(current), localGoal := possiblyLowerGoal,
                 globalGoal := possiblyLowerGoal + Heuristic(ManhattanDistance, nb, goalNode))
        else nb;
    }

    /** Resets the grid and searches from the start: every cell ends reset
        (so no obstacle survives) and visited, and no cell has a parent, so
        the goal never has a path to draw. */
    method Solve()
      requires Shaped() && start in AllCells() && goal in AllCells()
      modifies grid
      ensures Valid()
      ensures forall y, x :: InGrid(y, x) ==> grid[y, x] == SolvedCell(Coord(x, y))
    {
      InitNodes();
      ResetGridIsValid();
      Search();
      OpenGridReachesAll(start);
    }

    /** A fully reset grid satisfies the invariant, and its lists are those
        of the obstacle-free grid. */
    lemma ResetGridIsValid()
      requires Shaped() && start in AllCells() && goal in AllCells()
      requires forall y, x :: InGrid(y, x) ==> grid[y, x] == ResetCell(Coord(x, y))
      ensures Valid() && Links() == OpenLinks()
    {
      assert Links() == OpenLinks();
      ListsStayInGrid({});
    }

    /** A released mouse button at pixel (px, py). An in-bounds tile moves the
        start (left button), toggles the obstacle (middle) or moves the goal
        (right), then solves; any other button only solves. A click outside
        the grid changes nothing. */
    method OnMouseReleased(button: Button, px: int, py: int)
      requires Valid()
      modifies this, grid
      ensures Valid()
      ensures !IsValidCoordinates(TileOf(px), TileOf(py)) ==>
        start == old(start) && goal == old(goal) &&
        forall y, x :: InGrid(y, x) ==> grid[y, x] == old(grid[y, x])
      ensures IsValidCoordinates(TileOf(px), TileOf(py)) ==>
        start == (if button == Left then Coord(TileOf(px), TileOf(py)) else old(start)) &&
        goal == (if button == Right then Coord(TileOf(px), TileOf(py)) else old(goal)) &&
        forall y, x :: InGrid(y, x) ==> grid[y, x] == SolvedCell(Coord(x, y))
    {
      var mx := TileOf(px);
      var my := TileOf(py);
      if IsValidCoordinates(mx, my) {
        if button == Left {
          start := Coord(mx, my);
        } else if button == Middle {
          grid[my, mx] := grid[my, mx].(isObstacle := !grid[my, mx].isObstacle);
        } else if button == Right {
          goal := Coord(mx, my);
        }
        Solve();
      }
    }
  }
}
