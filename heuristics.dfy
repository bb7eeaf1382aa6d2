/** The heuristic table: three distance estimates between two cells, each a
    function of the cells' stored coordinates. */
module Heuristics {
  import opened Grid

  function Manhattan(a: Node, b: Node): (r: int)
    ensures r >= 0
  {
    Abs(a.x - b.x) + Abs(a.y - b.y)
  }

  /** Squared Euclidean distance. The C++ code computes it with floating
      `pow`; on coordinates this small every square is exact. */
  function Pythagorean(a: Node, b: Node): (r: int)
    ensures r >= 0
  {
    (a.x - b.x) * (a.x - b.x) + (a.y - b.y) * (a.y - b.y)
  }

  function ZeroDistance(a: Node, b: Node): int
  {
    0
  }

  /** The lookup of a heuristic kind in the table. */
  function Heuristic(kind: HeuristicType, a: Node, b: Node): (r: int)
    ensures r >= 0
    ensures kind == Zero ==> r == 0
  {
    match kind
    case ManhattanDistance => Manhattan(a, b)
    case PythagoreanDistance => Pythagorean(a, b)
    case Zero => ZeroDistance(a, b)
  }

  /** Every heuristic is symmetric in its two cells. */
  lemma HeuristicSymmetric(kind: HeuristicType, a: Node, b: Node)
    ensures Heuristic(kind, a, b) == Heuristic(kind, b, a)
  {
  }

  /** Manhattan and Pythagorean vanish exactly on cells at the same position. */
  lemma HeuristicZeroIffSamePosition(kind: HeuristicType, a: Node, b: Node)
    requires kind != Zero
    ensures Heuristic(kind, a, b) == 0 <==> (a.x == b.x && a.y == b.y)
  {
    if kind == PythagoreanDistance {
      var dx, dy := a.x - b.x, a.y - b.y;
      if dx != 0 {
        assert dx * dx > 0 by { SquarePositive(dx); }
        assert dy * dy >= 0 by { SquarePositive(dy); }
      } else if dy != 0 {
        assert dy * dy > 0 by { SquarePositive(dy); }
      }
    }
  }

  lemma SquarePositive(n: int)
    ensures n * n >= 0
    ensures n != 0 ==> n * n > 0
  {
    if n < 0 {
      assert n * n == (-n) * (-n);
    }
  }

  /** Between cells that share a side, Manhattan and Pythagorean both give 1. */
  lemma HeuristicOfAdjacent(kind: HeuristicType, a: Node, b: Node)
    requires kind != Zero
    requires Adjacent(Coord(a.x, a.y), Coord(b.x, b.y))
    ensures Heuristic(kind, a, b) == 1
  {
    var dx, dy := a.x - b.x, a.y - b.y;
    if kind == PythagoreanDistance {
      if dx == 0 {
        assert dy == 1 || dy == -1;
      } else {
        assert dy == 0 && (dx == 1 || dx == -1);
      }
    }
  }

  /** Manhattan satisfies the triangle inequality, so as a step cost it is
      consistent. */
  lemma ManhattanTriangle(a: Node, b: Node, c: Node)
    ensures Manhattan(a, c) <= Manhattan(a, b) + Manhattan(b, c)
  {
  }

  /** Pythagorean does not: two unit steps cost 2 while the estimate across
      them is 4, so it overestimates and is not admissible as a step cost. */
  lemma PythagoreanNotConsistent()
    ensures var a, b, c := Node(0, 0, false, false, Infinity, Infinity, [], None),
                          Node(1, 0, false, false, Infinity, Infinity, [], None),
                          Node(2, 0, false, false, Infinity, Infinity, [], None);
            Pythagorean(a, c) > Pythagorean(a, b) + Pythagorean(b, c)
  {
  }
}
