/**
 * The JavaScript console map: the dwarf's symbol is written at its new
 * position and, where the old cell shows a trail, at its previous position.
 */
module MazeRender {
  import opened Wrappers
  import opened Grid

  /** `isSymbol`: the cell shows one of the dwarf symbols L, R, T, P. */
  function IsSymbol(cell: char): (r: bool)
    ensures r <==> cell in ['L', 'R', 'T', 'P']
  {
    cell == 'L' || cell == 'R' || cell == 'T' || cell == 'P'
  }

  /**
   * What `render` leaves in the grid: the position's cell holds `symbol`; the
   * previous cell holds `symbol` if it held `.` or a dwarf symbol; every other
   * cell is unchanged.
   */
  function Rendered(g: Maze, position: Point, previous: Option<Point>, symbol: char): (r: Maze)
    requires InBounds(g, position) && (previous.Some? ==> InBounds(g, previous.value))
    ensures |r| == |g| && forall j :: 0 <= j < |g| ==> |r[j]| == |g[j]|
    ensures forall j, i :: 0 <= j < |g| && 0 <= i < |g[j]| ==>
      r[j][i] == if Point(i, j) == position then symbol
                 else if previous.Some? && Point(i, j) == previous.value && (g[j][i] == '.' || IsSymbol(g[j][i]))
                 then symbol
                 else g[j][i]
  {
    var trail :=
      if previous.Some? && (g[previous.value.y][previous.value.x] == '.' ||
                            IsSymbol(g[previous.value.y][previous.value.x]))
      then SetCell(g, previous.value, symbol)
      else g;
    SetCell(trail, position, symbol)
  }

  class MazeRenderMap {
    const originalMaze: Maze
    var maze: Maze

    constructor (maze: Maze)
      ensures originalMaze == maze && this.maze == maze
    {
      this.originalMaze := maze;
      this.maze := maze;
    }

    /** `render`, without the console output. */
    method Render(position: Point, previous: Option<Point>, symbol: char)
      requires InBounds(maze, position) && (previous.Some? ==> InBounds(maze, previous.value))
      modifies this
      ensures maze == Rendered(old(maze), position, previous, symbol)
    {
      if previous.Some? {
        var x, y := previous.value.x, previous.value.y;
        if maze[y][x] == '.' || IsSymbol(maze[y][x]) {
          maze := maze[y := maze[y][x := symbol]];
        }
      }
      var x, y := position.x, position.y;
      maze := maze[y := maze[y][x := symbol]];
    }
  }
}
