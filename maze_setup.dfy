/**
 * The JavaScript program's grid check. Its marker scan, `findStartAndFinish`,
 * is the same row-major scan as the C# one and is modelled by
 * `MateSetup.FindStartAndFinish`.
 */
module MazeSetup {
  import opened Wrappers
  import opened Grid

  /** Every row has length `rowLength` (the `every` test). */
  predicate EveryRowHasLength(maze: Maze, rowLength: nat) {
    forall i :: 0 <= i < |maze| ==> |maze[i]| == rowLength
  }

  /**
   * `validateMaze`: the width of the grid when every row is as long as row 0; a
   * grid without a row 0 fails (`maze[0]` is undefined), and so does one with
   * rows of different lengths.
   */
  function ValidateMaze(maze: Maze): (r: Result<nat, MazeError>)
    ensures r.Success? <==> Rectangular(maze)
    ensures r.Success? ==> r.value == |maze[0]| && forall i :: 0 <= i < |maze| ==> |maze[i]| == r.value
    ensures r.Failure? ==> r.error == (if |maze| == 0 then EmptyMaze else UnevenRows)
  {
    if |maze| == 0 then Failure(EmptyMaze)
    else
      var rowLength := |maze[0]|;
      if EveryRowHasLength(maze, rowLength) then Success(rowLength) else Failure(UnevenRows)
  }
}
