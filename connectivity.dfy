/** The neighbour lists built by the connection pass: for each cell, the
    cells one step east, south, west and north of it (in that order) that lie
    inside the grid and are not obstacles. */
module Connectivity {
  import opened Grid

  /** The direction offsets, indexed E, S, W, N. */
  const Dx: seq<int> := [1, 0, -1, 0]
  const Dy: seq<int> := [0, 1, 0, -1]

  /** The cell one step from `c` in direction `dir`. */
  function Step(c: Coord, dir: nat): (n: Coord)
    requires dir < 4
    ensures Adjacent(c, n)
  {
    Coord(c.x + Dx[dir], c.y + Dy[dir])
  }

  /** A cell that a neighbour list may point to. */
  predicate Open(blocked: set<Coord>, n: Coord)
  {
    IsValidCoordinates(n.x, n.y) && n !in blocked
  }

  /** The list after examining the first `dirs` directions. */
  function NeighboursUpTo(blocked: set<Coord>, c: Coord, dirs: nat): (r: seq<Coord>)
    requires dirs <= 4
    ensures |r| <= dirs
    ensures forall n :: n in r ==> Adjacent(c, n) && Open(blocked, n)
  {
    if dirs == 0 then []
    else
      var prev := NeighboursUpTo(blocked, c, dirs - 1);
      var n := Step(c, dirs - 1);
      if Open(blocked, n) then prev + [n] else prev
  }

  /** The neighbour list of `c` when the cells of `blocked` are obstacles. */
  function NeighbourList(blocked: set<Coord>, c: Coord): (r: seq<Coord>)
    ensures |r| <= 4
    ensures forall n :: n in r ==> Adjacent(c, n) && Open(blocked, n)
  {
    NeighboursUpTo(blocked, c, 4)
  }

  /** The direction in which `n` lies from `c`. */
  function DirOf(c: Coord, n: Coord): (dir: nat)
    requires Adjacent(c, n)
    ensures dir < 4 && Step(c, dir) == n
  {
    if n.x == c.x + 1 then 0
    else if n.y == c.y + 1 then 1
    else if n.x == c.x - 1 then 2
    else 3
  }

  /** Each prefix holds exactly the open cells among the first `dirs`
      directions. */
  lemma {:induction false} NeighboursUpToMembers(blocked: set<Coord>, c: Coord, dirs: nat)
    requires dirs <= 4
    ensures forall n :: n in NeighboursUpTo(blocked, c, dirs) <==>
              Adjacent(c, n) && DirOf(c, n) < dirs && Open(blocked, n)
  {
    if dirs > 0 {
      NeighboursUpToMembers(blocked, c, dirs - 1);
      var n := Step(c, dirs - 1);
      assert DirOf(c, n) == dirs - 1;
      forall m | Adjacent(c, m) && DirOf(c, m) < dirs && Open(blocked, m)
        ensures m in NeighboursUpTo(blocked, c, dirs)
      {
        if DirOf(c, m) == dirs - 1 {
          assert m == n;
        }
      }
    }
  }

  /** Each prefix is in direction order: an earlier entry lies in an earlier
      direction. */
  lemma {:induction false} NeighboursUpToOrdered(blocked: set<Coord>, c: Coord, dirs: nat)
    requires dirs <= 4
    ensures forall i, j :: 0 <= i < j < |NeighboursUpTo(blocked, c, dirs)| ==>
              DirOf(c, NeighboursUpTo(blocked, c, dirs)[i]) < DirOf(c, NeighboursUpTo(blocked, c, dirs)[j])
  {
    if dirs > 0 {
      NeighboursUpToOrdered(blocked, c, dirs - 1);
      NeighboursUpToMembers(blocked, c, dirs - 1);
      var prev := NeighboursUpTo(blocked, c, dirs - 1);
      var n := Step(c, dirs - 1);
      assert DirOf(c, n) == dirs - 1;
      if Open(blocked, n) {
        var r := prev + [n];
        forall i, j | 0 <= i < j < |r|
          ensures DirOf(c, r[i]) < DirOf(c, r[j])
        {
          assert r[i] == prev[i];
          if j < |prev| {
            assert r[j] == prev[j];
          } else {
            assert prev[i] in prev;
          }
        }
      }
    }
  }

  /** A cell's list holds exactly its in-bounds, non-obstacle orthogonal
      neighbours: never the cell itself, never an obstacle, never an
      out-of-bounds position. */
  lemma NeighbourListMembership(blocked: set<Coord>, c: Coord, n: Coord)
    ensures n in NeighbourList(blocked, c) <==>
            Adjacent(c, n) && IsValidCoordinates(n.x, n.y) && n !in blocked
    ensures c !in NeighbourList(blocked, c)
  {
    NeighboursUpToMembers(blocked, c, 4);
  }

  /** Every list points into the grid. */
  lemma ListsStayInGrid(blocked: set<Coord>)
    ensures forall c, n :: n in NeighbourList(blocked, c) ==> n in AllCells()
  {
    forall c, n | n in NeighbourList(blocked, c)
      ensures n in AllCells()
    {
      NeighbourListMembership(blocked, c, n);
    }
  }

  /** The list is in E, S, W, N order, holds each neighbour once, and has at
      most four entries. */
  lemma NeighbourListOrdered(blocked: set<Coord>, c: Coord)
    ensures |NeighbourList(blocked, c)| <= 4
    ensures forall i, j :: 0 <= i < j < |NeighbourList(blocked, c)| ==>
              DirOf(c, NeighbourList(blocked, c)[i]) < DirOf(c, NeighbourList(blocked, c)[j]) &&
              NeighbourList(blocked, c)[i] != NeighbourList(blocked, c)[j]
  {
    NeighboursUpToOrdered(blocked, c, 4);
  }

  /** Two in-bounds, non-obstacle cells that share a side list each other. */
  lemma NeighbourSymmetry(blocked: set<Coord>, a: Coord, b: Coord)
    requires a in AllCells() && b in AllCells() && a !in blocked && b !in blocked
    requires Adjacent(a, b)
    ensures b in NeighbourList(blocked, a) && a in NeighbourList(blocked, b)
  {
    NeighbourListMembership(blocked, a, b);
    NeighbourListMembership(blocked, b, a);
  }

  /** An obstacle appears in no cell's list. */
  lemma ObstacleInNoList(blocked: set<Coord>, o: Coord, c: Coord)
    requires o in blocked
    ensures o !in NeighbourList(blocked, c)
  {
    NeighbourListMembership(blocked, c, o);
  }

  /** An obstacle still gets its own list: whether a cell is itself an
      obstacle has no effect on the list it is given. */
  lemma ObstacleKeepsOwnList(blocked: set<Coord>, o: Coord)
    ensures NeighbourList(blocked, o) == NeighbourList(blocked - {o}, o)
    ensures o in blocked && o in AllCells() && blocked <= {o} ==> |NeighbourList(blocked, o)| >= 2
  {
    UpToIgnoresSelf(blocked, o, 4);
    if o in AllCells() && blocked <= {o} {
      assert blocked - {o} == {};
      OpenNeighbourCount(o);
    }
  }

  lemma {:induction false} UpToIgnoresSelf(blocked: set<Coord>, o: Coord, dirs: nat)
    requires dirs <= 4
    ensures NeighboursUpTo(blocked, o, dirs) == NeighboursUpTo(blocked - {o}, o, dirs)
  {
    if dirs > 0 {
      UpToIgnoresSelf(blocked, o, dirs - 1);
      assert Step(o, dirs - 1) != o;
    }
  }

  /** With no obstacles, a corner cell has 2 neighbours, another border cell
      3 and an interior cell 4. */
  lemma OpenNeighbourCount(c: Coord)
    requires c in AllCells()
    ensures |NeighbourList({}, c)| ==
            (if c.x == 0 || c.x == GridWidth - 1 then 1 else 2) +
            (if c.y == 0 || c.y == GridHeight - 1 then 1 else 2)
  {
    assert 0 <= c.x < GridWidth && 0 <= c.y < GridHeight by {
      assert IsValidCoordinates(c.x, c.y);
    }
    OpenStepCount(c, 0);
    OpenStepCount(c, 1);
    OpenStepCount(c, 2);
    OpenStepCount(c, 3);
  }

  /** Examining one more direction of the obstacle-free grid adds one entry
      exactly when the step stays in bounds. */
  lemma OpenStepCount(c: Coord, dir: nat)
    requires dir < 4
    ensures |NeighboursUpTo({}, c, dir + 1)| ==
            |NeighboursUpTo({}, c, dir)| + (if IsValidCoordinates(c.x + Dx[dir], c.y + Dy[dir]) then 1 else 0)
  {
  }

  /** The neighbour lists of the whole obstacle-free grid, as a map. */
  function OpenLinks(): (links: map<Coord, seq<Coord>>)
    ensures links.Keys == AllCells()
  {
    map c | c in AllCells() :: NeighbourList({}, c)
  }
}
