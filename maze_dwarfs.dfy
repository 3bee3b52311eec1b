/**
 * The teleporting and the path-following dwarfs of the JavaScript program.
 * The base class `Dwarf` (maze, position, finish) is folded into each class;
 * the `visited` set it also creates is used only by the turning dwarfs
 * (module MazeTurnDwarfs) and is left out here.
 */
module MazeDwarfs {
  import opened Wrappers
  import opened Grid
  import opened PathSearch

  /** A dwarf that may jump straight to the finish, once. */
  class RandomPortDwarf {
    const maze: Maze
    var position: Point
    const finish: Point
    var teleported: bool
    ghost const start: Point

    /** Until it teleports the dwarf stands on the start; afterwards on the finish. */
    ghost predicate Valid()
      reads this
    {
      position == (if teleported then finish else start)
    }

    constructor (maze: Maze, start: Point, finish: Point)
      ensures Valid()
      ensures this.maze == maze && this.start == start && this.finish == finish
      ensures position == start && !teleported
    {
      this.maze := maze;
      this.position := start;
      this.finish := finish;
      this.start := start;
      this.teleported := false;
    }

    /**
     * One move; `teleportNow` stands for the draw `Math.random() < 0.1`.
     * The first successful draw moves the dwarf to the finish; nothing else changes anything.
     */
    method Move(teleportNow: bool)
      requires Valid()
      modifies this
      ensures Valid()
      ensures teleported == (old(teleported) || teleportNow)
      ensures position == if !old(teleported) && teleportNow then finish else old(position)
    {
      if !teleported && teleportNow {
        position := finish;
        teleported := true;
      }
    }
  }

  /** A dwarf that replays a shortest path found by breadth-first search. */
  class PathFollowingDwarf {
    const maze: Maze
    var position: Point
    const finish: Point
    const path: seq<Point>
    var currentStep: nat
    ghost const start: Point

    /**
     * The path is a shortest path from start to finish and the dwarf stands on the
     * waypoint last replayed (on the start before the first move).
     */
    ghost predicate Valid()
      reads this
    {
      && ShortestPath(maze, start, finish, path)
      && currentStep <= |path|
      && position == (if currentStep == 0 then start else path[currentStep - 1])
    }

    constructor WithPath(maze: Maze, start: Point, finish: Point, path: seq<Point>)
      requires ShortestPath(maze, start, finish, path)
      ensures Valid()
      ensures this.maze == maze && this.start == start && this.finish == finish
      ensures this.path == path && position == start && currentStep == 0
    {
      this.maze := maze;
      this.position := start;
      this.finish := finish;
      this.path := path;
      this.currentStep := 0;
      this.start := start;
    }

    /** The constructor: it fails exactly when the search finds no path. */
    static method Create(maze: Maze, start: Point, finish: Point)
      returns (r: Result<PathFollowingDwarf, MazeError>)
      requires Rectangular(maze)
      ensures r.Success? <==> Reachable(maze, start, finish)
      ensures r.Failure? ==> r.error == NoPath
      ensures r.Success? ==> fresh(r.value) && r.value.Valid() && r.value.maze == maze
      ensures r.Success? ==> r.value.start == start && r.value.finish == finish
      ensures r.Success? ==> r.value.position == start && r.value.currentStep == 0
    {
      var found := FindPath(maze, start, finish);
      if found.Failure? {
        return Failure(found.error);
      }
      var dwarf := new PathFollowingDwarf.WithPath(maze, start, finish, found.value);
      return Success(dwarf);
    }

    /**
     * Breadth-first search from `start`, neighbours in the order up, left, down,
     * right, visited cells in a set. Returns a shortest repetition-free walk to
     * `finish`, or fails when the queue runs dry.
     */
    static method FindPath(maze: Maze, start: Point, finish: Point)
      returns (r: Result<seq<Point>, MazeError>)
      requires Rectangular(maze)
      ensures r.Success? <==> Reachable(maze, start, finish)
      ensures r.Success? ==> ShortestPath(maze, start, finish, r.value)
      ensures r.Failure? ==> r.error == NoPath
    {
      NeighboursAreUnits();
      var queue: seq<seq<Point>> := [[start]];
      var visited: set<Point> := {start};
      ghost var expanded: set<Point> := {};
      ghost var cells := Cells(maze);
      SearchInit(maze, start, finish);
      while |queue| > 0
        invariant SearchInv(maze, start, finish, queue, visited, expanded)
        decreases cells - visited, |queue|
      {
        var path := queue[0];
        var last := path[|path| - 1];
        if last == finish {
          assert ShortestPath(maze, start, finish, path);
          return Success(path);
        }
        ExpandStart(maze, start, finish, queue, visited, expanded);
        ghost var visited0 := visited;
        ghost var rest := queue[1..];
        queue, visited := VisitNeighbours(maze, start, finish, path, queue[1..], visited, expanded);
        assert visited == visited0 ==> queue == rest;
        expanded := expanded + {last};
      }
      ExhaustedMeansUnreachable(maze, start, finish, visited, expanded);
      return Failure(NoPath);
    }

    /**
     * The `for` loop over the four directions that expands the dequeued `path`:
     * each passable, unvisited neighbour of its end is marked visited and the path
     * extended to it is enqueued.
     */
    static method VisitNeighbours(maze: Maze, ghost start: Point, ghost finish: Point,
                                  path: seq<Point>, queue: seq<seq<Point>>, visited: set<Point>,
                                  ghost expanded: set<Point>)
      returns (queue': seq<seq<Point>>, visited': set<Point>)
      requires Rectangular(maze)
      requires ExpandInv(maze, start, finish, path, queue, visited, visited, expanded)
      ensures SearchInv(maze, start, finish, queue', visited', expanded + {Last(path)})
      ensures visited <= visited' && (visited' == visited ==> queue' == queue)
      ensures visited' != visited ==> Cells(maze) - visited' < Cells(maze) - visited
    {
      NeighboursAreUnits();
      ghost var cells := Cells(maze);
      var last := path[|path| - 1];
      queue', visited' := queue, visited;
      for i := 0 to 4
        invariant ExpandInv(maze, start, finish, path, queue', visited', visited, expanded)
        invariant NeighboursHandled(maze, last, visited', i)
        invariant visited' == visited ==> queue' == queue
        invariant visited' != visited ==> cells - visited' < cells - visited
      {
        ghost var before := visited';
        var d := NEIGHBOURS[i];
        var newX := last.x + d.dx;
        var newY := last.y + d.dy;
        var next := Point(newX, newY);
        assert next == Step(last, d);
        RectangularBounds(maze, next);
        if newX >= 0 && newY >= 0 && newX < |maze[0]| && newY < |maze| &&
           maze[newY][newX] != '#' && Point(newX, newY) !in visited'
        {
          UnitStepAdjacent(last, d);
          CellsArePassable(maze, next);
          Shrinks(cells, visited', visited, next);
          ExpandAdd(maze, start, finish, path, queue', visited', visited, expanded, next);
          visited' := visited' + {next};
          queue' := queue' + [path + [next]];
        }
        HandledOneMore(maze, last, before, visited', i);
      }
      ExpandFinish(maze, start, finish, path, queue', visited', visited, expanded);
    }

    /**
     * Replays the next waypoint while any remain; afterwards nothing changes.
     * The first waypoint is the start itself, so the first move stays put.
     */
    method Move()
      requires Valid()
      modifies this
      ensures Valid()
      ensures old(currentStep) < |path| ==>
                position == path[old(currentStep)] && currentStep == old(currentStep) + 1
      ensures old(currentStep) == |path| ==>
                position == old(position) && currentStep == old(currentStep)
    {
      if currentStep < |path| {
        position := path[currentStep];
        currentStep := currentStep + 1;
      }
    }

    /** Once every waypoint has been replayed the dwarf stands on the finish. */
    lemma ReplayEndsAtFinish()
      requires Valid() && currentStep == |path|
      ensures AtFinish(position, finish)
    {
    }
  }
}
