/**
 * What a breadth-first search over the 4-connected grid promises, and the facts
 * its loop invariant rests on. Both programs run the same search (a queue of
 * paths, a visited set, neighbour order up, left, down, right); the two loops
 * live with the classes that own them and share this proof.
 */
module PathSearch {
  import opened Grid

  function Last(w: seq<Point>): Point
    requires |w| > 0
  {
    w[|w| - 1]
  }

  /** Consecutive points are 4-adjacent and every point after the first is passable. */
  predicate IsWalk(maze: Maze, w: seq<Point>) {
    |w| > 0 && forall i :: 0 < i < |w| ==> Adjacent(w[i - 1], w[i]) && Passable(maze, w[i])
  }

  predicate WalkFrom(maze: Maze, w: seq<Point>, s: Point) {
    IsWalk(maze, w) && w[0] == s
  }

  /** No cell is visited twice. */
  predicate Simple(w: seq<Point>) {
    forall i, j :: 0 <= i < j < |w| ==> w[i] != w[j]
  }

  /** No walk from `s` to the end of `q` has fewer points than `q`. */
  ghost predicate Shortest(maze: Maze, s: Point, q: seq<Point>) {
    |q| > 0 && forall w :: WalkFrom(maze, w, s) && Last(w) == Last(q) ==> |q| <= |w|
  }

  ghost predicate Reachable(maze: Maze, s: Point, f: Point) {
    exists w :: WalkFrom(maze, w, s) && Last(w) == f
  }

  /** What the search returns: a shortest, repetition-free walk from `s` to `f`. */
  ghost predicate ShortestPath(maze: Maze, s: Point, f: Point, p: seq<Point>) {
    WalkFrom(maze, p, s) && Last(p) == f && Simple(p) && Shortest(maze, s, p)
  }

  lemma ShortestPathBounds(maze: Maze, s: Point, f: Point, p: seq<Point>)
    requires InBounds(maze, s) && ShortestPath(maze, s, f, p)
    ensures forall k :: 0 <= k < |p| ==> InBounds(maze, p[k])
  {
  }

  // ---------------------------------------------------------------------------
  // The search invariant

  /** Endpoints of the queued paths. */
  function Lasts(queue: seq<seq<Point>>): set<Point> {
    set i | 0 <= i < |queue| && |queue[i]| > 0 :: Last(queue[i])
  }

  /** Every queued path is a simple shortest walk from `s` through visited cells. */
  ghost predicate QueuedPaths(maze: Maze, s: Point, queue: seq<seq<Point>>, visited: set<Point>) {
    forall i :: 0 <= i < |queue| ==>
      WalkFrom(maze, queue[i], s) && Simple(queue[i]) && Shortest(maze, s, queue[i]) &&
      forall k :: 0 <= k < |queue[i]| ==> queue[i][k] in visited
  }

  /** Path lengths along the queue never decrease and span at most one. */
  predicate Layered(queue: seq<seq<Point>>) {
    forall i, j :: 0 <= i <= j < |queue| ==> |queue[i]| <= |queue[j]| <= |queue[i]| + 1
  }

  /** Every passable neighbour of an expanded cell has been visited. */
  ghost predicate Closed(maze: Maze, expanded: set<Point>, visited: set<Point>) {
    forall e, b :: e in expanded && Adjacent(e, b) && Passable(maze, b) ==> b in visited
  }

  /** The invariant of the search loop, between two dequeues. */
  ghost predicate SearchInv(maze: Maze, s: Point, f: Point, queue: seq<seq<Point>>,
                            visited: set<Point>, expanded: set<Point>) {
    && QueuedPaths(maze, s, queue, visited)
    && Layered(queue)
    && visited <= expanded + Lasts(queue)
    && Closed(maze, expanded, visited)
    && s in visited
    && f !in expanded
  }

  lemma LastsAppend(queue: seq<seq<Point>>, p: seq<Point>)
    requires |p| > 0
    ensures Lasts(queue + [p]) == Lasts(queue) + {Last(p)}
  {
    var q := queue + [p];
    assert Last(q[|queue|]) == Last(p);
    forall v | v in Lasts(queue) ensures v in Lasts(q) {
      var i :| 0 <= i < |queue| && |queue[i]| > 0 && Last(queue[i]) == v;
      assert q[i] == queue[i];
    }
  }

  lemma LastsTail(queue: seq<seq<Point>>)
    requires |queue| > 0 && |queue[0]| > 0
    ensures Lasts(queue) == {Last(queue[0])} + Lasts(queue[1..])
  {
    var t := queue[1..];
    forall v | v in Lasts(queue) ensures v in {Last(queue[0])} + Lasts(t) {
      var i :| 0 <= i < |queue| && |queue[i]| > 0 && Last(queue[i]) == v;
      if i > 0 { assert t[i - 1] == queue[i]; }
    }
    forall v | v in Lasts(t) ensures v in Lasts(queue) {
      var i :| 0 <= i < |t| && |t[i]| > 0 && Last(t[i]) == v;
      assert queue[i + 1] == t[i];
    }
  }

  /** Visiting one more cell shrinks the unvisited part of the grid; this bounds the search. */
  lemma Shrinks(cells: set<Point>, visited: set<Point>, visited0: set<Point>, n: Point)
    requires n in cells && n !in visited && visited0 <= visited
    requires visited != visited0 ==> cells - visited < cells - visited0
    ensures cells - (visited + {n}) < cells - visited0
  {
    assert n in cells - visited0 && n !in cells - (visited + {n});
  }

  /** A walk that starts inside `v` and ends outside it crosses the border somewhere. */
  lemma ExitPoint(w: seq<Point>, v: set<Point>) returns (k: nat)
    requires |w| > 0 && w[0] in v && Last(w) !in v
    ensures k + 1 < |w| && w[k] in v && w[k + 1] !in v
  {
    k := 0;
    while w[k + 1] in v
      invariant k + 1 < |w| && w[k] in v
      decreases |w| - k
    {
      k := k + 1;
    }
  }

  lemma PrefixWalk(maze: Maze, w: seq<Point>, s: Point, n: nat)
    requires WalkFrom(maze, w, s) && 0 < n <= |w|
    ensures WalkFrom(maze, w[..n], s) && Last(w[..n]) == w[n - 1]
  {
  }

  /**
   * The frontier bound: every walk from `s` to a cell not yet visited is longer
   * than the path at the head of the queue.
   */
  lemma FrontierBound(maze: Maze, s: Point, f: Point, queue: seq<seq<Point>>,
                      visited: set<Point>, expanded: set<Point>, w: seq<Point>)
    requires SearchInv(maze, s, f, queue, visited, expanded) && |queue| > 0
    requires WalkFrom(maze, w, s) && Last(w) !in visited
    ensures |w| > |queue[0]|
  {
    var k := ExitPoint(w, visited);
    assert Adjacent(w[k], w[k + 1]) && Passable(maze, w[k + 1]);
    assert w[k] !in expanded;
    assert w[k] in Lasts(queue);
    var i :| 0 <= i < |queue| && |queue[i]| > 0 && Last(queue[i]) == w[k];
    PrefixWalk(maze, w, s, k + 1);
    assert |queue[i]| <= k + 1;
    assert |queue[0]| <= |queue[i]|;
  }

  lemma FrontierBoundAll(maze: Maze, s: Point, f: Point, queue: seq<seq<Point>>,
                         visited: set<Point>, expanded: set<Point>)
    requires SearchInv(maze, s, f, queue, visited, expanded) && |queue| > 0
    ensures forall w :: WalkFrom(maze, w, s) && Last(w) !in visited ==> |w| > |queue[0]|
  {
    forall w | WalkFrom(maze, w, s) && Last(w) !in visited ensures |w| > |queue[0]| {
      FrontierBound(maze, s, f, queue, visited, expanded, w);
    }
  }

  /** A walk that starts in a neighbour-closed set never leaves it. */
  lemma {:induction false} WalkStaysInside(maze: Maze, w: seq<Point>, v: set<Point>)
    requires IsWalk(maze, w) && w[0] in v && Closed(maze, v, v)
    ensures Last(w) in v
  {
    if |w| > 1 {
      var front := w[..|w| - 1];
      assert IsWalk(maze, front) && front[0] == w[0];
      WalkStaysInside(maze, front, v);
      assert Last(front) == w[|w| - 2];
      assert Adjacent(w[|w| - 2], w[|w| - 1]) && Passable(maze, w[|w| - 1]);
    }
  }

  /** When the queue runs dry without meeting `f`, no walk reaches `f`. */
  lemma ExhaustedMeansUnreachable(maze: Maze, s: Point, f: Point,
                                  visited: set<Point>, expanded: set<Point>)
    requires SearchInv(maze, s, f, [], visited, expanded)
    ensures !Reachable(maze, s, f)
  {
    assert visited <= expanded;
    assert Closed(maze, visited, visited);
    forall w | WalkFrom(maze, w, s) ensures Last(w) != f {
      WalkStaysInside(maze, w, visited);
    }
  }

  /** The search starts from the one-point path `[s]`. */
  lemma SearchInit(maze: Maze, s: Point, f: Point)
    ensures SearchInv(maze, s, f, [[s]], {s}, {})
  {
    forall w | WalkFrom(maze, w, s) && Last(w) == Last([s]) ensures |[s]| <= |w| {
    }
    assert Lasts([[s]]) == {s} by {
      assert Last([[s]][0]) == s;
    }
  }

  // ---------------------------------------------------------------------------
  // One expansion step, split into the pieces the two loops need

  /**
   * The state inside the expansion of `head` (the dequeued path): `queue` is the
   * rest of the old queue plus the paths added so far, `visited0` and `expanded0`
   * are the sets before the expansion began.
   */
  ghost predicate ExpandInv(maze: Maze, s: Point, f: Point, head: seq<Point>,
                            queue: seq<seq<Point>>, visited: set<Point>,
                            visited0: set<Point>, expanded0: set<Point>) {
    && |head| > 0
    && QueuedPaths(maze, s, queue, visited)
    && Layered(queue)
    && (forall i :: 0 <= i < |queue| ==> |head| <= |queue[i]| <= |head| + 1)
    && visited <= expanded0 + {Last(head)} + Lasts(queue)
    && Closed(maze, expanded0, visited)
    && visited0 <= visited
    && s in visited
    && f !in expanded0
    && Last(head) != f
    && (forall w :: WalkFrom(maze, w, s) && Last(w) !in visited0 ==> |w| > |head|)
    && WalkFrom(maze, head, s) && Simple(head)
    && (forall k :: 0 <= k < |head| ==> head[k] in visited)
  }

  /** Dequeuing a head that is not the finish starts an expansion. */
  lemma ExpandStart(maze: Maze, s: Point, f: Point, queue: seq<seq<Point>>,
                    visited: set<Point>, expanded: set<Point>)
    requires SearchInv(maze, s, f, queue, visited, expanded) && |queue| > 0
    requires Last(queue[0]) != f
    ensures ExpandInv(maze, s, f, queue[0], queue[1..], visited, visited, expanded)
  {
    FrontierBoundAll(maze, s, f, queue, visited, expanded);
    LastsTail(queue);
    var t := queue[1..];
    forall i | 0 <= i < |t| ensures |queue[0]| <= |t[i]| <= |queue[0]| + 1 {
      assert t[i] == queue[i + 1];
    }
  }

  /** Enqueuing an unvisited passable neighbour of the head keeps the expansion invariant. */
  /** Extending the head by an unvisited passable neighbour gives a simple shortest walk. */
  lemma ExtendedPathGood(maze: Maze, s: Point, head: seq<Point>, visited: set<Point>,
                         visited0: set<Point>, n: Point)
    requires |head| > 0 && WalkFrom(maze, head, s) && Simple(head)
    requires forall k :: 0 <= k < |head| ==> head[k] in visited
    requires forall w :: WalkFrom(maze, w, s) && Last(w) !in visited0 ==> |w| > |head|
    requires visited0 <= visited
    requires Adjacent(Last(head), n) && Passable(maze, n) && n !in visited
    ensures WalkFrom(maze, head + [n], s) && Simple(head + [n]) && Shortest(maze, s, head + [n])
    ensures forall k :: 0 <= k < |head + [n]| ==> (head + [n])[k] in visited + {n}
  {
    var p := head + [n];
    assert Last(p) == n;
    assert IsWalk(maze, p) by {
      forall i | 0 < i < |p| ensures Adjacent(p[i - 1], p[i]) && Passable(maze, p[i]) {
        if i < |head| {
          assert p[i - 1] == head[i - 1] && p[i] == head[i];
        } else {
          assert p[i - 1] == Last(head);
        }
      }
    }
    assert Simple(p) by {
      forall i, j | 0 <= i < j < |p| ensures p[i] != p[j] {
        if j == |head| { assert p[i] == head[i] && head[i] in visited; }
        else { assert p[i] == head[i] && p[j] == head[j]; }
      }
    }
    assert Shortest(maze, s, p) by {
      forall w | WalkFrom(maze, w, s) && Last(w) == Last(p) ensures |p| <= |w| {
        assert Last(w) !in visited0;
      }
    }
    forall k | 0 <= k < |p| ensures p[k] in visited + {n} {
      if k < |head| { assert p[k] == head[k]; }
    }
  }

  lemma QueuedPathsAppend(maze: Maze, s: Point, queue: seq<seq<Point>>, visited: set<Point>,
                          n: Point, p: seq<Point>)
    requires QueuedPaths(maze, s, queue, visited)
    requires WalkFrom(maze, p, s) && Simple(p) && Shortest(maze, s, p)
    requires forall k :: 0 <= k < |p| ==> p[k] in visited + {n}
    ensures QueuedPaths(maze, s, queue + [p], visited + {n})
  {
    var q := queue + [p];
    forall i | 0 <= i < |q|
      ensures WalkFrom(maze, q[i], s) && Simple(q[i]) && Shortest(maze, s, q[i]) &&
              forall k :: 0 <= k < |q[i]| ==> q[i][k] in visited + {n}
    {
      if i < |queue| {
        assert q[i] == queue[i];
      }
    }
  }

  lemma LayeredAppend(queue: seq<seq<Point>>, head: seq<Point>, p: seq<Point>)
    requires Layered(queue) && |p| == |head| + 1
    requires forall i :: 0 <= i < |queue| ==> |head| <= |queue[i]| <= |head| + 1
    ensures Layered(queue + [p])
    ensures forall i :: 0 <= i < |queue + [p]| ==> |head| <= |(queue + [p])[i]| <= |head| + 1
  {
    var q := queue + [p];
    forall i, j | 0 <= i <= j < |q| ensures |q[i]| <= |q[j]| <= |q[i]| + 1 {
      if j == |queue| && i < |queue| { assert q[i] == queue[i]; }
      else if j < |queue| { assert q[i] == queue[i] && q[j] == queue[j]; }
    }
    forall i | 0 <= i < |q| ensures |head| <= |q[i]| <= |head| + 1 {
      if i < |queue| { assert q[i] == queue[i]; }
    }
  }

  /** Enqueuing an unvisited passable neighbour of the head keeps the expansion invariant. */
  lemma ExpandAdd(maze: Maze, s: Point, f: Point, head: seq<Point>,
                  queue: seq<seq<Point>>, visited: set<Point>,
                  visited0: set<Point>, expanded0: set<Point>, n: Point)
    requires ExpandInv(maze, s, f, head, queue, visited, visited0, expanded0)
    requires Adjacent(Last(head), n) && Passable(maze, n) && n !in visited
    ensures ExpandInv(maze, s, f, head, queue + [head + [n]], visited + {n}, visited0, expanded0)
  {
    var p := head + [n];
    ExtendedPathGood(maze, s, head, visited, visited0, n);
    QueuedPathsAppend(maze, s, queue, visited, n, p);
    LayeredAppend(queue, head, p);
    LastsAppend(queue, p);
    assert Last(p) == n;
  }

  /** The first `n` search directions from `c` lead to visited cells or to no passable cell. */
  predicate NeighboursHandled(maze: Maze, c: Point, visited: set<Point>, n: nat)
    requires n <= 4
  {
    forall j :: 0 <= j < n && Passable(maze, Step(c, NEIGHBOURS[j])) ==> Step(c, NEIGHBOURS[j]) in visited
  }

  lemma HandledOneMore(maze: Maze, c: Point, before: set<Point>, after: set<Point>, n: nat)
    requires n < 4 && NeighboursHandled(maze, c, before, n) && before <= after
    requires Passable(maze, Step(c, NEIGHBOURS[n])) && Step(c, NEIGHBOURS[n]) !in before ==>
               Step(c, NEIGHBOURS[n]) in after
    ensures NeighboursHandled(maze, c, after, n + 1)
  {
  }

  /** Once all four neighbours of the head are handled, the loop invariant holds again. */
  lemma ExpandFinish(maze: Maze, s: Point, f: Point, head: seq<Point>,
                     queue: seq<seq<Point>>, visited: set<Point>,
                     visited0: set<Point>, expanded0: set<Point>)
    requires ExpandInv(maze, s, f, head, queue, visited, visited0, expanded0)
    requires NeighboursHandled(maze, Last(head), visited, 4)
    ensures SearchInv(maze, s, f, queue, visited, expanded0 + {Last(head)})
  {
    var e := expanded0 + {Last(head)};
    forall a, b | a in e && Adjacent(a, b) && Passable(maze, b) ensures b in visited {
      if a == Last(head) {
        var i := AdjacentIsNeighbourStep(a, b);
      }
    }
  }
}
