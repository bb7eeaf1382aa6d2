/** Reachability through neighbour lists, the notion that characterises what
    the search marks as visited, and the counting measure that bounds the
    search's frontier. */
module Reachability {
  import opened Grid
  import opened Connectivity

  /** Every consecutive pair of `p` follows a neighbour list of `links`. */
  ghost predicate IsWalk(links: map<Coord, seq<Coord>>, p: seq<Coord>)
  {
    forall i :: 0 <= i < |p| - 1 ==> p[i] in links && p[i + 1] in links[p[i]]
  }

  ghost predicate Reachable(links: map<Coord, seq<Coord>>, s: Coord, t: Coord)
  {
    exists p: seq<Coord> :: |p| > 0 && p[0] == s && p[|p| - 1] == t && IsWalk(links, p)
  }

  /** A set that contains the list of each of its cells. */
  ghost predicate Closed(links: map<Coord, seq<Coord>>, cells: set<Coord>)
  {
    forall c, n :: c in cells && c in links && n in links[c] ==> n in cells
  }

  lemma ReachableFromItself(links: map<Coord, seq<Coord>>, s: Coord)
    ensures Reachable(links, s, s)
  {
    assert IsWalk(links, [s]);
  }

  /** One more step along a list extends reachability. */
  lemma ReachableStep(links: map<Coord, seq<Coord>>, s: Coord, m: Coord, t: Coord)
    requires Reachable(links, s, m)
    requires m in links && t in links[m]
    ensures Reachable(links, s, t)
  {
    var p :| |p| > 0 && p[0] == s && p[|p| - 1] == m && IsWalk(links, p);
    var q := p + [t];
    assert IsWalk(links, q) by {
      forall i | 0 <= i < |q| - 1
        ensures q[i] in links && q[i + 1] in links[q[i]]
      {
        if i < |p| - 1 {
          assert q[i] == p[i] && q[i + 1] == p[i + 1];
        }
      }
    }
    assert q[0] == s && q[|q| - 1] == t;
  }

  /** A walk that starts in a closed set never leaves it. */
  lemma {:induction false} WalkStaysInClosed(links: map<Coord, seq<Coord>>, cells: set<Coord>, p: seq<Coord>)
    requires Closed(links, cells) && IsWalk(links, p)
    requires |p| > 0 && p[0] in cells
    ensures p[|p| - 1] in cells
  {
    if |p| > 1 {
      var q := p[..|p| - 1];
      assert IsWalk(links, q) by {
        forall i | 0 <= i < |q| - 1
          ensures q[i] in links && q[i + 1] in links[q[i]]
        {
          assert q[i] == p[i] && q[i + 1] == p[i + 1];
        }
      }
      WalkStaysInClosed(links, cells, q);
      assert p[|p| - 2] in links && p[|p| - 1] in links[p[|p| - 2]];
    }
  }

  /** A closed set that contains `s` contains everything reachable from `s`. */
  lemma ClosedContainsReachable(links: map<Coord, seq<Coord>>, cells: set<Coord>, s: Coord, t: Coord)
    requires Closed(links, cells) && s in cells
    requires Reachable(links, s, t)
    ensures t in cells
  {
    var p :| |p| > 0 && p[0] == s && p[|p| - 1] == t && IsWalk(links, p);
    WalkStaysInClosed(links, cells, p);
  }

  /** In the obstacle-free grid every cell is reachable from every other. */
  lemma {:induction false} OpenGridConnected(s: Coord, t: Coord)
    requires s in AllCells() && t in AllCells()
    ensures Reachable(OpenLinks(), s, t)
    decreases Abs(s.x - t.x) + Abs(s.y - t.y)
  {
    if s == t {
      ReachableFromItself(OpenLinks(), s);
    } else {
      assert IsValidCoordinates(s.x, s.y) && IsValidCoordinates(t.x, t.y);
      // the cell one step from t back towards s
      var m :=
        if t.x < s.x then Coord(t.x + 1, t.y)
        else if t.x > s.x then Coord(t.x - 1, t.y)
        else if t.y < s.y then Coord(t.x, t.y + 1)
        else Coord(t.x, t.y - 1);
      assert IsValidCoordinates(m.x, m.y);
      OpenGridConnected(s, m);
      NeighbourListMembership({}, m, t);
      ReachableStep(OpenLinks(), s, m, t);
    }
  }

  /** Hence a search from any cell of the obstacle-free grid reaches all of it. */
  lemma OpenGridReachesAll(s: Coord)
    requires s in AllCells()
    ensures forall t :: t in AllCells() ==> Reachable(OpenLinks(), s, t)
  {
    forall t | t in AllCells()
      ensures Reachable(OpenLinks(), s, t)
    {
      OpenGridConnected(s, t);
    }
  }

  /** The entries of `ns` whose cell is not in `visited`, in their order:
      what one pass over a list pushes. */
  function Unvisited(ns: seq<Coord>, visited: set<Coord>): (r: seq<Coord>)
    ensures |r| <= |ns|
    ensures forall n :: n in r <==> n in ns && n !in visited
  {
    if ns == [] then []
    else
      var last := ns[|ns| - 1];
      Unvisited(ns[..|ns| - 1], visited) + (if last in visited then [] else [last])
  }

  /** The indices of the entries of `ns` whose cell is not in `visited`,
      in increasing order. */
  ghost function UnvisitedIndices(ns: seq<Coord>, visited: set<Coord>): seq<int>
  {
    if ns == [] then []
    else
      UnvisitedIndices(ns[..|ns| - 1], visited) + (if ns[|ns| - 1] in visited then [] else [|ns| - 1])
  }

  /** The indices picked are exactly the indices of unvisited entries, in
      increasing order. */
  lemma {:induction false} UnvisitedIndicesExact(ns: seq<Coord>, visited: set<Coord>)
    ensures var idx := UnvisitedIndices(ns, visited);
      (forall k :: 0 <= k < |idx| ==> 0 <= idx[k] < |ns|) &&
      (forall k, l :: 0 <= k < l < |idx| ==> idx[k] < idx[l]) &&
      (forall j :: 0 <= j < |ns| ==> (j in idx <==> ns[j] !in visited))
  {
    if ns != [] {
      var init, last := ns[..|ns| - 1], ns[|ns| - 1];
      UnvisitedIndicesExact(init, visited);
      var idx0, idx := UnvisitedIndices(init, visited), UnvisitedIndices(ns, visited);
      var tail: seq<int> := if last in visited then [] else [|ns| - 1];
      assert idx == idx0 + tail;
      forall k, l | 0 <= k < l < |idx|
        ensures idx[k] < idx[l]
      {
        assert idx[k] == idx0[k];
        if l < |idx0| {
          assert idx[l] == idx0[l];
        }
      }
      forall j | 0 <= j < |ns|
        ensures j in idx <==> ns[j] !in visited
      {
        assert j in idx <==> j in idx0 || j in tail;
        if j < |init| {
          assert init[j] == ns[j];
          assert j !in tail;
          assert j in idx0 <==> init[j] !in visited;
        } else {
          assert ns[j] == last;
          assert j !in idx0 by {
            forall k | 0 <= k < |idx0|
              ensures idx0[k] != j
            {
            }
          }
          assert j in tail <==> last !in visited;
        }
      }
    }
  }

  /** `Unvisited` is the subsequence of `ns` at the increasing indices of
      its unvisited entries: each such entry appears once, in list order. */
  lemma {:induction false} UnvisitedIsSubsequence(ns: seq<Coord>, visited: set<Coord>)
    ensures var r, idx := Unvisited(ns, visited), UnvisitedIndices(ns, visited);
      |idx| == |r| &&
      (forall k :: 0 <= k < |idx| ==> 0 <= idx[k] < |ns| && r[k] == ns[idx[k]]) &&
      (forall k, l :: 0 <= k < l < |idx| ==> idx[k] < idx[l]) &&
      (forall j :: 0 <= j < |ns| ==> (j in idx <==> ns[j] !in visited))
  {
    UnvisitedIndicesExact(ns, visited);
    if ns != [] {
      var init, last := ns[..|ns| - 1], ns[|ns| - 1];
      UnvisitedIsSubsequence(init, visited);
      var r0, idx0 := Unvisited(init, visited), UnvisitedIndices(init, visited);
      var r, idx := Unvisited(ns, visited), UnvisitedIndices(ns, visited);
      assert r == r0 + (if last in visited then [] else [last]);
      assert idx == idx0 + (if last in visited then [] else [|ns| - 1]);
      forall k | 0 <= k < |idx|
        ensures r[k] == ns[idx[k]]
      {
        if k < |idx0| {
          assert idx[k] == idx0[k] && r[k] == r0[k];
          assert init[idx0[k]] == ns[idx0[k]];
        }
      }
    }
  }

  /** Extending the examined prefix by one entry pushes it when unvisited. */
  lemma UnvisitedSnoc(ns: seq<Coord>, k: nat, visited: set<Coord>)
    requires k < |ns|
    ensures Unvisited(ns[..k + 1], visited) ==
            Unvisited(ns[..k], visited) + (if ns[k] in visited then [] else [ns[k]])
  {
    assert ns[..k + 1][..k] == ns[..k];
  }

  /** The number of entries of `frontier` whose cell is already in `visited`. */
  function Stale(frontier: seq<Coord>, visited: set<Coord>): (k: nat)
    ensures k <= |frontier|
  {
    if frontier == [] then 0
    else (if frontier[0] in visited then 1 else 0) + Stale(frontier[1..], visited)
  }

  lemma {:induction false} StaleAppend(a: seq<Coord>, b: seq<Coord>, visited: set<Coord>)
    ensures Stale(a + b, visited) == Stale(a, visited) + Stale(b, visited)
  {
    if a != [] {
      assert (a + b)[1..] == a[1..] + b;
      StaleAppend(a[1..], b, visited);
    } else {
      assert a + b == b;
    }
  }

  /** Entries of cells not yet visited are never stale. */
  lemma {:induction false} StaleOfFresh(s: seq<Coord>, visited: set<Coord>)
    requires forall j :: 0 <= j < |s| ==> s[j] !in visited
    ensures Stale(s, visited) == 0
  {
    if s != [] {
      StaleOfFresh(s[1..], visited);
    }
  }

  /** Removing a stale entry lowers the count by one. */
  lemma StaleRemove(s: seq<Coord>, i: nat, visited: set<Coord>)
    requires i < |s| && s[i] in visited
    ensures Stale(s[..i] + s[i + 1..], visited) == Stale(s, visited) - 1
  {
    assert s == s[..i] + ([s[i]] + s[i + 1..]);
    StaleAppend(s[..i], [s[i]] + s[i + 1..], visited);
    StaleAppend([s[i]], s[i + 1..], visited);
    StaleAppend(s[..i], s[i + 1..], visited);
  }

  /** `s` with its entry at `i` removed: exactly one copy of `s[i]` goes,
      and every other entry survives. */
  function Without(s: seq<Coord>, i: nat): (r: seq<Coord>)
    requires i < |s|
    ensures |r| == |s| - 1
    ensures forall j :: 0 <= j < |s| && j != i ==> s[j] in r
    ensures forall c :: c in s ==> c == s[i] || c in r
    ensures forall j :: 0 <= j < |r| ==> r[j] in s
    ensures multiset(r) == multiset(s) - multiset{s[i]}
  {
    var r := s[..i] + s[i + 1..];
    assert forall j :: 0 <= j < i ==> r[j] == s[j];
    assert forall j :: i < j < |s| ==> r[j - 1] == s[j];
    assert s == s[..i] + [s[i]] + s[i + 1..];
    r
  }

  /** Every listed cell of a visited cell is visited or waiting in the frontier. */
  ghost predicate Covered(links: map<Coord, seq<Coord>>, visited: set<Coord>, frontier: seq<Coord>)
  {
    forall c, n :: c in visited && c in links && n in links[c] ==> n in visited || n in frontier
  }

  /** What the search keeps true of its visited cells and its frontier:
      every entry and every visited cell is reachable from `s`, the start is
      visited or waiting, and every listed cell of a visited cell is visited
      or waiting. */
  ghost predicate FrontierInvariant(links: map<Coord, seq<Coord>>, s: Coord, visited: set<Coord>, frontier: seq<Coord>)
  {
    (forall j :: 0 <= j < |frontier| ==> frontier[j] in links && Reachable(links, s, frontier[j])) &&
    (forall c :: c in visited ==> Reachable(links, s, c)) &&
    (s in visited || s in frontier) &&
    Covered(links, visited, frontier)
  }

  /** The cells of `links` reachable from `s`. */
  ghost function ReachableSet(links: map<Coord, seq<Coord>>, s: Coord): set<Coord>
  {
    set c | c in links.Keys && Reachable(links, s, c)
  }

  /** Once the frontier is empty, the visited cells are exactly the cells
      reachable from `s`. */
  lemma ExhaustedFrontier(links: map<Coord, seq<Coord>>, s: Coord, visited: set<Coord>)
    requires FrontierInvariant(links, s, visited, []) && visited <= links.Keys
    ensures visited == ReachableSet(links, s)
  {
    assert Closed(links, visited);
    forall c | Reachable(links, s, c)
      ensures c in visited
    {
      ClosedContainsReachable(links, visited, s, c);
    }
  }

  /** Processing the entry at `i`: its cell becomes visited, its listed cells
      that are not visited are appended, and the entry is removed. The
      frontier invariant survives. */
  lemma ExpandKeepsFrontier(links: map<Coord, seq<Coord>>, s: Coord, visited: set<Coord>,
                            frontier: seq<Coord>, i: nat, pushed: seq<Coord>)
    requires i < |frontier|
    requires FrontierInvariant(links, s, visited, frontier)
    requires forall j :: 0 <= j < |pushed| ==> pushed[j] in links && pushed[j] in links[frontier[i]]
    requires forall n :: n in links[frontier[i]] ==> n in visited + {frontier[i]} || n in pushed
    ensures FrontierInvariant(links, s, visited + {frontier[i]}, Without(frontier + pushed, i))
  {
    var current := frontier[i];
    var all := frontier + pushed;
    var next := Without(all, i);
    assert all[i] == current;
    forall c, n | c in visited + {current} && c in links && n in links[c]
      ensures n in visited + {current} || n in next
    {
      if c == current {
        if n !in visited + {current} {
          assert n in pushed;
          var j :| 0 <= j < |pushed| && pushed[j] == n;
          assert all[|frontier| + j] == n;
        }
      } else {
        if n !in visited {
          assert n in frontier;
          var j :| 0 <= j < |frontier| && frontier[j] == n;
          assert all[j] == n;
        }
      }
    }
    if s !in visited + {current} {
      var j :| 0 <= j < |frontier| && frontier[j] == s;
      assert all[j] == s;
    }
    assert Covered(links, visited + {current}, next);
    forall c | c in all
      ensures c in links && Reachable(links, s, c)
    {
      var j :| 0 <= j < |all| && all[j] == c;
      if j >= |frontier| {
        assert pushed[j - |frontier|] == c;
        ReachableStep(links, s, current, c);
      } else {
        assert frontier[j] == c;
      }
    }
  }

  lemma {:induction false} SubsetCardinality(a: set<Coord>, b: set<Coord>)
    requires a <= b
    ensures |a| <= |b|
  {
    if a != {} {
      var x :| x in a;
      SubsetCardinality(a - {x}, b - {x});
    }
  }

  /** The search's termination measure: either one more cell is visited, or
      the processed entry was stale and the number of stale entries drops.
      The visited cells never outnumber the cells. */
  lemma ExpandDecreases(all: set<Coord>, visited: set<Coord>, frontier: seq<Coord>, i: nat, pushed: seq<Coord>)
    requires i < |frontier| && visited + {frontier[i]} <= all
    requires forall j :: 0 <= j < |pushed| ==> pushed[j] !in visited + {frontier[i]}
    ensures |visited + {frontier[i]}| <= |all|
    ensures |visited + {frontier[i]}| > |visited| ||
            (visited + {frontier[i]} == visited &&
             Stale(Without(frontier + pushed, i), visited) < Stale(frontier, visited))
  {
    var current := frontier[i];
    SubsetCardinality(visited + {current}, all);
    if current in visited {
      assert visited + {current} == visited;
      StaleOfFresh(pushed, visited);
      StaleAppend(frontier, pushed, visited);
      assert (frontier + pushed)[i] == current;
      StaleRemove(frontier + pushed, i, visited);
    }
  }

  /** One turn of the search as the engine performs it: the entry at `i` is
      processed, its unvisited listed cells are appended in list order, and
      the entry is then removed. */
  lemma TurnKeepsInvariant(links: map<Coord, seq<Coord>>, s: Coord, visited: set<Coord>,
                           frontier: seq<Coord>, i: nat)
    requires i < |frontier| && visited + {frontier[i]} <= links.Keys
    requires FrontierInvariant(links, s, visited, frontier)
    requires forall n :: n in links[frontier[i]] ==> n in links
    ensures var next := Without(frontier + Unvisited(links[frontier[i]], visited + {frontier[i]}), i);
            FrontierInvariant(links, s, visited + {frontier[i]}, next) &&
            (|visited + {frontier[i]}| > |visited| ||
             (visited + {frontier[i]} == visited && Stale(next, visited) < Stale(frontier, visited)))
    ensures |visited + {frontier[i]}| <= |links.Keys|
  {
    var pushed := Unvisited(links[frontier[i]], visited + {frontier[i]});
    forall j | 0 <= j < |pushed|
      ensures pushed[j] !in visited + {frontier[i]} && pushed[j] in links && pushed[j] in links[frontier[i]]
    {
      assert pushed[j] in pushed;
    }
    ExpandKeepsFrontier(links, s, visited, frontier, i, pushed);
    ExpandDecreases(links.Keys, visited, frontier, i, pushed);
  }
}
