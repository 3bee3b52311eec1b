/**
 * The three movement strategies of the C# program. A strategy receives the
 * dwarf's position and the maze and returns the next position; the wall
 * follower and the teleporter keep a little state of their own between calls.
 */
module MateStrategies {
  import opened Wrappers
  import opened Grid
  import opened PathSearch

  // ---------------------------------------------------------------------------
  // Wall following

  /**
   * `RotateLeft`: (dx, dy) becomes (-dy, dx). A unit direction becomes another
   * unit direction, neither the same nor the reverse. With y growing downwards
   * this is a clockwise quarter turn on screen (RotationCycle): facing up, it
   * faces right.
   */
  function RotateLeft(d: Vec): (r: Vec)
    ensures IsUnit(d) ==> IsUnit(r) && r != d && r != Vec(-d.dx, -d.dy)
  {
    Vec(-d.dy, d.dx)
  }

  /** `RotateRight`: (dx, dy) becomes (dy, -dx), the opposite quarter turn. */
  function RotateRight(d: Vec): (r: Vec)
    ensures IsUnit(d) ==> IsUnit(r) && r != d && r != Vec(-d.dx, -d.dy)
  {
    Vec(d.dy, -d.dx)
  }

  /** The squared length of a vector. */
  function Norm(d: Vec): int {
    d.dx * d.dx + d.dy * d.dy
  }

  /** The z-component of the cross product `d` x `e`. */
  function Cross(d: Vec, e: Vec): int {
    d.dx * e.dy - d.dy * e.dx
  }

  /**
   * Both rotations give a vector at right angles to `d` and as long; `d` x `r`
   * is positive for `RotateLeft` and negative for `RotateRight`, so on the
   * y-down grid the first turns clockwise and the second anticlockwise.
   */
  lemma QuarterTurns(d: Vec)
    ensures var r := RotateLeft(d);
      d.dx * r.dx + d.dy * r.dy == 0 && Norm(r) == Norm(d) && Cross(d, r) == Norm(d)
    ensures var r := RotateRight(d);
      d.dx * r.dx + d.dy * r.dy == 0 && Norm(r) == Norm(d) && Cross(d, r) == -Norm(d)
  {
  }

  /** The two rotations undo each other and four of either give the identity. */
  lemma RotationsInverse(d: Vec)
    ensures RotateLeft(RotateRight(d)) == d && RotateRight(RotateLeft(d)) == d
    ensures RotateLeft(RotateLeft(RotateLeft(RotateLeft(d)))) == d
    ensures RotateRight(RotateRight(RotateRight(RotateRight(d)))) == d
  {
  }

  /** On the y-down grid `RotateLeft` runs up, right, down, left: clockwise. */
  lemma RotationCycle()
    ensures RotateLeft(UP) == RIGHT && RotateLeft(RIGHT) == DOWN
    ensures RotateLeft(DOWN) == LEFT && RotateLeft(LEFT) == UP
  {
  }

  /** `CanMove`: one step along `direction` stays inside `maze[0].Length` columns and is no wall. */
  function CanMove(direction: Vec, position: Point, maze: Maze): (r: bool)
    requires Rectangular(maze)
    ensures r <==> Passable(maze, Step(position, direction))
  {
    var newX := position.x + direction.dx;
    var newY := position.y + direction.dy;
    newX >= 0 && newY >= 0 && newX < |maze[0]| && newY < |maze| && maze[newY][newX] != '#'
  }

  /** The turn towards the wall: `RotateLeft` for the side "left", `RotateRight` otherwise. */
  function WallTurn(wallSide: string, d: Vec): Vec {
    if wallSide == "left" then RotateLeft(d) else RotateRight(d)
  }

  /** The turn away from the wall. */
  function AwayTurn(wallSide: string, d: Vec): Vec {
    if wallSide == "left" then RotateRight(d) else RotateLeft(d)
  }

  /**
   * Where `WallFollowStrategy.Move` leaves `currentDirection`: the dwarf keeps
   * its heading or makes a quarter turn, never a U-turn, and it turns towards
   * the wall whenever the cell on that side is free.
   */
  function NextDirection(wallSide: string, d: Vec, position: Point, maze: Maze): (r: Vec)
    requires Rectangular(maze)
    ensures r == d || r == RotateLeft(d) || r == RotateRight(d)
    ensures Passable(maze, Step(position, WallTurn(wallSide, d))) ==> r == WallTurn(wallSide, d)
    ensures r == AwayTurn(wallSide, d) && r != d ==>
              !Passable(maze, Step(position, WallTurn(wallSide, d))) && !Passable(maze, Step(position, d))
  {
    if CanMove(WallTurn(wallSide, d), position, maze) then WallTurn(wallSide, d)
    else if CanMove(d, position, maze) then d
    else AwayTurn(wallSide, d)
  }

  /**
   * What `WallFollowStrategy.Move` returns: one step along the new direction onto
   * a free cell, or the position itself; a free cell on the wall side is always
   * the one taken.
   */
  function WallFollowTarget(wallSide: string, d: Vec, position: Point, maze: Maze): (r: Point)
    requires Rectangular(maze)
    ensures r == position || (r == Step(position, NextDirection(wallSide, d, position, maze)) && Passable(maze, r))
    ensures Passable(maze, Step(position, WallTurn(wallSide, d))) ==> r == Step(position, WallTurn(wallSide, d))
  {
    var next := NextDirection(wallSide, d, position, maze);
    if CanMove(next, position, maze) then Step(position, next) else position
  }

  /**
   * A wall-following move facing a unit direction: the new direction is a unit
   * vector and never the reverse of the old one; the dwarf steps onto an adjacent
   * passable cell, and stays put exactly when the wall-side cell, the cell ahead
   * and the cell on the far side are all blocked.
   */
  lemma WallFollowOutcome(wallSide: string, d: Vec, position: Point, maze: Maze)
    requires Rectangular(maze) && IsUnit(d)
    ensures var next := NextDirection(wallSide, d, position, maze);
      IsUnit(next) && next != Vec(-d.dx, -d.dy)
    ensures var r := WallFollowTarget(wallSide, d, position, maze);
      (r == position) <==>
        (!Passable(maze, Step(position, RotateLeft(d))) && !Passable(maze, Step(position, d)) &&
         !Passable(maze, Step(position, RotateRight(d))))
    ensures var r := WallFollowTarget(wallSide, d, position, maze);
      r != position ==> Adjacent(position, r) && Passable(maze, r)
  {
    var next := NextDirection(wallSide, d, position, maze);
    assert next in {WallTurn(wallSide, d), d, AwayTurn(wallSide, d)};
    assert {WallTurn(wallSide, d), AwayTurn(wallSide, d)} == {RotateLeft(d), RotateRight(d)};
    UnitStepAdjacent(position, next);
  }

  /** The wall-follower: which side it keeps the wall on, and where it faces. */
  class WallFollowStrategy {
    const wallSide: string
    var currentDirection: Vec

    ghost predicate Valid()
      reads this
    {
      IsUnit(currentDirection)
    }

    /** Starts facing down, (0, 1). */
    constructor (wallSide: string)
      ensures Valid() && this.wallSide == wallSide && currentDirection == DOWN
    {
      this.wallSide := wallSide;
      this.currentDirection := DOWN;
    }

    /**
     * Turns towards the wall if that cell is free, else keeps going straight if
     * that cell is free, else turns away; then steps if the faced cell is free.
     */
    method Move(position: Point, maze: Maze) returns (r: Point)
      requires Valid() && Rectangular(maze)
      modifies this
      ensures Valid()
      ensures currentDirection == NextDirection(wallSide, old(currentDirection), position, maze)
      ensures r == WallFollowTarget(wallSide, old(currentDirection), position, maze)
    {
      var wallDirection := if wallSide == "left" then RotateLeft(currentDirection)
                           else RotateRight(currentDirection);
      if CanMove(wallDirection, position, maze) {
        currentDirection := wallDirection;
      } else if CanMove(currentDirection, position, maze) {
      } else {
        currentDirection := if wallSide == "left" then RotateRight(currentDirection)
                            else RotateLeft(currentDirection);
      }
      var newX := position.x + currentDirection.dx;
      var newY := position.y + currentDirection.dy;
      if CanMove(currentDirection, position, maze) {
        return Point(newX, newY);
      }
      return position;
    }
  }

  // ---------------------------------------------------------------------------
  // Random teleporting

  /**
   * `FindEmptyPositions`: every cell that is not a wall, scanned row by row over
   * each row's own length.
   */
  method FindEmptyPositions(maze: Maze) returns (cells: seq<Point>)
    ensures cells == OpenCells(maze)
    ensures forall p :: p in cells <==> Passable(maze, p)
  {
    cells := [];
    for y := 0 to |maze|
      invariant cells == OpenCellsUpTo(maze, y)
    {
      cells := AppendOpenCellsOfRow(maze, y, cells);
    }
    forall p ensures p in cells <==> Passable(maze, p) {
      OpenCellsMembers(maze, p);
    }
  }

  /** The inner loop of `FindEmptyPositions`: the non-wall cells of row `y`, appended. */
  method AppendOpenCellsOfRow(maze: Maze, y: nat, cells: seq<Point>) returns (cells': seq<Point>)
    requires y < |maze|
    ensures cells' == cells + RowOpenCells(maze, y, |maze[y]|)
  {
    cells' := cells;
    for x := 0 to |maze[y]|
      invariant cells' == cells + RowOpenCells(maze, y, x)
    {
      if maze[y][x] != '#' {
        cells' := cells' + [Point(x, y)];
      }
    }
  }

  /**
   * The draw on try `t` (counting from 0): `new Random().Next(count)` stands for
   * `roll(t) % count`, any index the caller chooses.
   */
  function Draw(candidates: seq<Point>, roll: nat -> nat, t: nat): (r: Point)
    requires |candidates| > 0
    ensures r in candidates
  {
    candidates[roll(t) % |candidates|]
  }

  /**
   * The number of tries the do-while loop makes, given that `tries` have been
   * made: it draws again while the draw repeats `last` and fewer than
   * `2 * count` tries were made.
   */
  function PortTries(candidates: seq<Point>, last: Option<Point>, roll: nat -> nat, tries: nat): (r: nat)
    requires |candidates| > 0 && 1 <= tries <= 2 * |candidates|
    ensures tries <= r <= 2 * |candidates|
    decreases 2 * |candidates| - tries
  {
    if last.Some? && Draw(candidates, roll, tries - 1) == last.value && tries < 2 * |candidates|
    then PortTries(candidates, last, roll, tries + 1)
    else tries
  }

  /**
   * The position the retry loop settles on: one of the candidates, and without a
   * previous target simply the first draw.
   */
  function PortTarget(candidates: seq<Point>, last: Option<Point>, roll: nat -> nat): (r: Point)
    requires |candidates| > 0
    ensures r in candidates
    ensures last.None? ==> r == Draw(candidates, roll, 0)
  {
    Draw(candidates, roll, PortTries(candidates, last, roll, 1) - 1)
  }

  /**
   * The loop stops at the first draw that differs from `last` (the first draw when
   * there is no `last`), and settles on `last` only when all `2 * count` tries
   * repeated it.
   */
  lemma {:induction false} PortTriesStop(candidates: seq<Point>, last: Option<Point>, roll: nat -> nat,
                                         tries: nat)
    requires |candidates| > 0 && 1 <= tries <= 2 * |candidates|
    ensures var n := PortTries(candidates, last, roll, tries);
      && (last.None? ==> n == tries)
      && (last.Some? ==> forall t :: tries - 1 <= t < n - 1 ==> Draw(candidates, roll, t) == last.value)
      && (last.Some? && Draw(candidates, roll, n - 1) == last.value ==> n == 2 * |candidates|)
    decreases 2 * |candidates| - tries
  {
    if last.Some? && Draw(candidates, roll, tries - 1) == last.value && tries < 2 * |candidates| {
      PortTriesStop(candidates, last, roll, tries + 1);
    }
  }

  /**
   * The teleport target is a non-wall cell; it equals the previous target only
   * when the loop ran all `2 * count` tries, each of them drawing that target.
   */
  lemma PortTargetFacts(maze: Maze, last: Option<Point>, roll: nat -> nat)
    requires |OpenCells(maze)| > 0
    ensures Passable(maze, PortTarget(OpenCells(maze), last, roll))
    ensures var c := OpenCells(maze);
      last.Some? && PortTarget(c, last, roll) == last.value ==>
        PortTries(c, last, roll, 1) == 2 * |c| &&
        forall t :: 0 <= t < 2 * |c| ==> Draw(c, roll, t) == last.value
    ensures last.None? ==> PortTarget(OpenCells(maze), last, roll) == Draw(OpenCells(maze), roll, 0)
  {
    var c := OpenCells(maze);
    OpenCellsMembers(maze, PortTarget(c, last, roll));
    PortTriesStop(c, last, roll, 1);
  }

  /** The teleporter: the target of its last jump, if any. */
  class RandomPortStrategy {
    const maze: Maze
    var lastPosition: Option<Point>

    constructor (maze: Maze)
      ensures this.maze == maze && lastPosition.None?
    {
      this.maze := maze;
      this.lastPosition := None;
    }

    /**
     * Jumps to a random non-wall cell of the `maze` argument, avoiding the
     * previous target for up to `2 * count` tries; `roll` supplies the random
     * indices. With no non-wall cell the dwarf stays and nothing changes.
     */
    method Move(position: Point, maze: Maze, roll: nat -> nat) returns (r: Point)
      modifies this
      ensures |OpenCells(maze)| == 0 ==> r == position && lastPosition == old(lastPosition)
      ensures |OpenCells(maze)| > 0 ==>
                r == PortTarget(OpenCells(maze), old(lastPosition), roll) && lastPosition == Some(r)
    {
      var emptyPositions := FindEmptyPositions(maze);
      if |emptyPositions| == 0 {
        return position;
      }
      var count := |emptyPositions|;
      var newPosition := emptyPositions[roll(0) % count];
      var tries := 1;
      while lastPosition.Some? && newPosition == lastPosition.value && tries < count * 2
        invariant 1 <= tries <= 2 * count
        invariant newPosition == Draw(emptyPositions, roll, tries - 1)
        invariant PortTries(emptyPositions, lastPosition, roll, tries) ==
                  PortTries(emptyPositions, lastPosition, roll, 1)
        decreases 2 * count - tries
      {
        newPosition := emptyPositions[roll(tries) % count];
        tries := tries + 1;
      }
      lastPosition := Some(newPosition);
      return newPosition;
    }
  }

  // ---------------------------------------------------------------------------
  // Path following

  /** The `bool[rows, columns]` array holds exactly the cells of `seen`. */
  ghost predicate Mirrors(maze: Maze, visited: array2<bool>, seen: set<Point>)
    reads visited
  {
    && |maze| > 0
    && visited.Length0 == |maze| && visited.Length1 == |maze[0]|
    && (forall y, x :: 0 <= y < visited.Length0 && 0 <= x < visited.Length1 ==>
          (visited[y, x] <==> Point(x, y) in seen))
    && (forall p :: p in seen ==> 0 <= p.y < visited.Length0 && 0 <= p.x < visited.Length1)
  }

  /** `visited[y, x] = true` for an in-bounds cell: the array now also holds `p`. */
  method Mark(maze: Maze, visited: array2<bool>, ghost seen: set<Point>, p: Point)
    requires Mirrors(maze, visited, seen)
    requires 0 <= p.y < visited.Length0 && 0 <= p.x < visited.Length1
    modifies visited
    ensures Mirrors(maze, visited, seen + {p})
  {
    visited[p.y, p.x] := true;
  }

  /** The breadth-first path follower: the path and the cursor into it. */
  class PathFollowingStrategy {
    const path: seq<Point>
    var currentStep: nat
    ghost const maze: Maze
    ghost const start: Point
    ghost const finish: Point

    /** The cursor never passes the end of the path. */
    ghost predicate Valid()
      reads this
    {
      currentStep <= |path|
    }

    /** The path is what the search promises: a shortest walk from start to finish. */
    ghost predicate Planned() {
      ShortestPath(maze, start, finish, path)
    }

    constructor WithPath(ghost maze: Maze, ghost start: Point, ghost finish: Point, path: seq<Point>)
      requires ShortestPath(maze, start, finish, path)
      ensures Valid() && Planned() && this.path == path && currentStep == 0
      ensures this.maze == maze && this.start == start && this.finish == finish
    {
      this.path := path;
      this.currentStep := 0;
      this.maze := maze;
      this.start := start;
      this.finish := finish;
    }

    /** The constructor: it throws exactly when the search finds no path. */
    static method Create(maze: Maze, start: Point, finish: Point)
      returns (r: Result<PathFollowingStrategy, MazeError>)
      requires Rectangular(maze) && InBounds(maze, start)
      ensures r.Success? <==> Reachable(maze, start, finish)
      ensures r.Failure? ==> r.error == NoPath
      ensures r.Success? ==> fresh(r.value) && r.value.Valid() && r.value.Planned() && r.value.currentStep == 0
      ensures r.Success? ==> r.value.maze == maze && r.value.start == start && r.value.finish == finish
    {
      var found := FindPath(maze, start, finish);
      if found.Failure? {
        return Failure(found.error);
      }
      var strategy := new PathFollowingStrategy.WithPath(maze, start, finish, found.value);
      return Success(strategy);
    }

    /**
     * Hands out the next waypoint while any remain; afterwards returns the
     * position it was given and the cursor stays.
     */
    method Move(position: Point, maze: Maze) returns (r: Point)
      requires Valid()
      modifies this
      ensures Valid()
      ensures old(currentStep) < |path| ==> r == path[old(currentStep)] && currentStep == old(currentStep) + 1
      ensures old(currentStep) == |path| ==> r == position && currentStep == old(currentStep)
    {
      if currentStep < |path| {
        r := path[currentStep];
        currentStep := currentStep + 1;
        return;
      }
      return position;
    }

    /** The first waypoint is the start, so the first move leaves the dwarf where it stands. */
    lemma FirstWaypointIsStart()
      requires Planned()
      ensures path[0] == start && Last(path) == finish
    {
    }

    /**
     * Breadth-first search from `start` with neighbour order up, left, down, right
     * and a `bool[rows, columns]` visited array.
     */
    static method FindPath(maze: Maze, start: Point, finish: Point)
      returns (r: Result<seq<Point>, MazeError>)
      requires Rectangular(maze) && InBounds(maze, start)
      ensures r.Success? <==> Reachable(maze, start, finish)
      ensures r.Success? ==> ShortestPath(maze, start, finish, r.value)
      ensures r.Failure? ==> r.error == NoPath
    {
      var visited := new bool[|maze|, |maze[0]|]((_, _) => false);
      var queue: seq<seq<Point>> := [[start]];
      visited[start.y, start.x] := true;
      ghost var seen: set<Point> := {start};
      ghost var expanded: set<Point> := {};
      ghost var cells := Cells(maze);
      SearchInit(maze, start, finish);
      while |queue| > 0
        invariant SearchInv(maze, start, finish, queue, seen, expanded)
        invariant Mirrors(maze, visited, seen)
        decreases cells - seen, |queue|
      {
        var path := queue[0];
        var lastPoint := path[|path| - 1];
        if lastPoint.x == finish.x && lastPoint.y == finish.y {
          assert ShortestPath(maze, start, finish, path);
          return Success(path);
        }
        ExpandStart(maze, start, finish, queue, seen, expanded);
        ghost var seen0 := seen;
        ghost var rest := queue[1..];
        queue, seen := ExpandPath(maze, start, finish, path, queue[1..], visited, seen, expanded);
        assert seen == seen0 ==> queue == rest;
        expanded := expanded + {lastPoint};
      }
      ExhaustedMeansUnreachable(maze, start, finish, seen, expanded);
      return Failure(NoPath);
    }

    /**
     * The `foreach` over the four directions: each in-bounds, non-wall neighbour
     * of the end of `path` not yet marked in `visited` is marked and the extended
     * path enqueued. `seen` is the set the array stands for.
     */
    static method ExpandPath(maze: Maze, ghost start: Point, ghost finish: Point,
                             path: seq<Point>, queue: seq<seq<Point>>, visited: array2<bool>,
                             ghost seen: set<Point>, ghost expanded: set<Point>)
      returns (queue': seq<seq<Point>>, ghost seen': set<Point>)
      requires Rectangular(maze) && Mirrors(maze, visited, seen)
      requires ExpandInv(maze, start, finish, path, queue, seen, seen, expanded)
      modifies visited
      ensures Mirrors(maze, visited, seen')
      ensures SearchInv(maze, start, finish, queue', seen', expanded + {Last(path)})
      ensures seen <= seen' && (seen' == seen ==> queue' == queue)
      ensures seen' != seen ==> Cells(maze) - seen' < Cells(maze) - seen
    {
      NeighboursAreUnits();
      ghost var cells := Cells(maze);
      var lastPoint := path[|path| - 1];
      queue', seen' := queue, seen;
      for i := 0 to 4
        invariant Mirrors(maze, visited, seen')
        invariant ExpandInv(maze, start, finish, path, queue', seen', seen, expanded)
        invariant NeighboursHandled(maze, lastPoint, seen', i)
        invariant seen' == seen ==> queue' == queue
        invariant seen' != seen ==> cells - seen' < cells - seen
      {
        ghost var before := seen';
        var d := NEIGHBOURS[i];
        var newX := lastPoint.x + d.dx;
        var newY := lastPoint.y + d.dy;
        var next := Point(newX, newY);
        assert next == Step(lastPoint, d);
        RectangularBounds(maze, next);
        if newX >= 0 && newY >= 0 && newX < |maze[0]| && newY < |maze| &&
           maze[newY][newX] != '#' && !visited[newY, newX]
        {
          UnitStepAdjacent(lastPoint, d);
          CellsArePassable(maze, next);
          Shrinks(cells, seen', seen, next);
          ExpandAdd(maze, start, finish, path, queue', seen', seen, expanded, next);
          Mark(maze, visited, seen', next);
          seen' := seen' + {next};
          queue' := queue' + [path + [next]];
        }
        HandledOneMore(maze, lastPoint, before, seen', i);
      }
      ExpandFinish(maze, start, finish, path, queue', seen', seen, expanded);
    }
  }
}
