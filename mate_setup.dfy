/**
 * Checking the parsed grid before the simulation starts: all rows as long as
 * row 0, and the positions of the start `S` and the finish `F`.
 */
module MateSetup {
  import opened Wrappers
  import opened Grid

  /**
   * `ValidateMaze`: fails on the first row (from the top) whose length differs
   * from row 0, and on a grid without a row 0.
   */
  method ValidateMaze(maze: Maze) returns (r: Result<(), MazeError>)
    ensures r.Success? <==> Rectangular(maze)
    ensures |maze| == 0 ==> r == Failure(EmptyMaze)
    ensures r.Failure? && |maze| > 0 ==>
              r.error.RaggedRow? && r.error.row < |maze| && |maze[r.error.row]| != |maze[0]| &&
              forall j :: 0 <= j < r.error.row ==> |maze[j]| == |maze[0]|
  {
    if |maze| == 0 {
      return Failure(EmptyMaze);
    }
    var rowLength := |maze[0]|;
    for i := 0 to |maze|
      invariant forall j :: 0 <= j < i ==> |maze[j]| == rowLength
    {
      if |maze[i]| != rowLength {
        return Failure(RaggedRow(i));
      }
    }
    return Success(());
  }

  // ---------------------------------------------------------------------------
  // Finding the markers

  /**
   * `found` is what the scan has kept for marker `c` on reaching row `y`, column
   * `x`, having seen the cells `Before` (x, y): nothing if none of them holds
   * `c`, otherwise the last of them that holds `c`.
   */
  ghost predicate LastSoFar(maze: Maze, c: char, found: Option<Point>, y: int, x: int) {
    && (found.None? ==> forall q :: Holds(maze, q, c) ==> !Before(q, Point(x, y)))
    && (found.Some? ==>
          && Holds(maze, found.value, c) && Before(found.value, Point(x, y))
          && forall q :: Holds(maze, q, c) && Before(q, Point(x, y)) ==>
               q == found.value || Before(q, found.value))
  }

  /** Reaching the end of row `y` is reaching the start of row `y + 1`. */
  lemma RowDone(maze: Maze, c: char, found: Option<Point>, y: nat)
    requires y < |maze| && LastSoFar(maze, c, found, y, |maze[y]|)
    ensures LastSoFar(maze, c, found, y + 1, 0)
  {
    forall q | Holds(maze, q, c)
      ensures Before(q, Point(0, y + 1)) <==> Before(q, Point(|maze[y]|, y))
    {
    }
  }

  /**
   * The scan of the whole grid ends with nothing exactly when `c` does not occur,
   * and otherwise with the last occurrence of `c`.
   */
  lemma ScanDone(maze: Maze, c: char, found: Option<Point>)
    requires LastSoFar(maze, c, found, |maze|, 0)
    ensures found.None? <==> !Occurs(maze, c)
    ensures found.Some? ==> IsLastOccurrence(maze, c, found.value)
  {
    if found.Some? {
      assert Holds(maze, found.value, c);
    }
  }

  /**
   * `FindStartAndFinish`: scans rows top to bottom and each row left to right,
   * over the row's own length, keeping the latest `S` and the latest `F`; fails
   * when either was never seen.
   */
  method FindStartAndFinish(maze: Maze) returns (r: Result<(Point, Point), MazeError>)
    ensures r.Success? <==> Occurs(maze, 'S') && Occurs(maze, 'F')
    ensures r.Success? ==> IsLastOccurrence(maze, 'S', r.value.0) && IsLastOccurrence(maze, 'F', r.value.1)
    ensures r.Failure? ==> r.error == MissingMarker
  {
    var start: Option<Point> := None;
    var finish: Option<Point> := None;
    for y := 0 to |maze|
      invariant LastSoFar(maze, 'S', start, y, 0) && LastSoFar(maze, 'F', finish, y, 0)
    {
      start, finish := ScanRow(maze, y, start, finish);
      RowDone(maze, 'S', start, y);
      RowDone(maze, 'F', finish, y);
    }
    ScanDone(maze, 'S', start);
    ScanDone(maze, 'F', finish);
    if start.None? || finish.None? {
      return Failure(MissingMarker);
    }
    return Success((start.value, finish.value));
  }

  /** The inner loop of `FindStartAndFinish`: one row, left to right. */
  method ScanRow(maze: Maze, y: nat, start: Option<Point>, finish: Option<Point>)
    returns (start': Option<Point>, finish': Option<Point>)
    requires y < |maze|
    requires LastSoFar(maze, 'S', start, y, 0) && LastSoFar(maze, 'F', finish, y, 0)
    ensures LastSoFar(maze, 'S', start', y, |maze[y]|) && LastSoFar(maze, 'F', finish', y, |maze[y]|)
  {
    start', finish' := start, finish;
    for x := 0 to |maze[y]|
      invariant LastSoFar(maze, 'S', start', y, x) && LastSoFar(maze, 'F', finish', y, x)
    {
      ghost var start0, finish0 := start', finish';
      if maze[y][x] == 'S' {
        start' := Some(Point(x, y));
      }
      if maze[y][x] == 'F' {
        finish' := Some(Point(x, y));
      }
      Advance(maze, 'S', start0, start', y, x);
      Advance(maze, 'F', finish0, finish', y, x);
    }
  }

  /** Stepping past cell (x, y): keep `found`, or replace it by (x, y) when that cell holds `c`. */
  lemma Advance(maze: Maze, c: char, before: Option<Point>, after: Option<Point>, y: nat, x: nat)
    requires y < |maze| && x < |maze[y]|
    requires LastSoFar(maze, c, before, y, x)
    requires after == if maze[y][x] == c then Some(Point(x, y)) else before
    ensures LastSoFar(maze, c, after, y, x + 1)
  {
    var p := Point(x, y);
    forall q | Holds(maze, q, c) && Before(q, Point(x + 1, y))
      ensures !Before(q, Point(x, y)) ==> q == p
    {
    }
  }
}
