/**
 * The C# console overlay: a working copy of the grid on which the dwarfs'
 * symbols are drawn, and the copy taken at construction that resets it.
 */
module MateRenderer {
  import opened Grid

  /** What `SetSymbol` does to a grid: the cell at `p` takes `symbol` unless it is a wall. */
  function PaintCell(g: Maze, p: Point, symbol: char): (r: Maze)
    requires InBounds(g, p)
    ensures |r| == |g| && forall j :: 0 <= j < |g| ==> |r[j]| == |g[j]|
    ensures forall j, i :: 0 <= j < |g| && 0 <= i < |g[j]| ==>
              r[j][i] == if Point(i, j) == p && g[j][i] != '#' then symbol else g[j][i]
  {
    if g[p.y][p.x] != '#' then SetCell(g, p, symbol) else g
  }

  /** Painting never creates or removes a wall when the symbol is not `#`. */
  lemma PaintKeepsWalls(g: Maze, p: Point, symbol: char)
    requires InBounds(g, p) && symbol != '#'
    ensures var r := PaintCell(g, p, symbol);
      forall q :: InBounds(g, q) ==> InBounds(r, q) && (r[q.y][q.x] == '#' <==> g[q.y][q.x] == '#')
  {
  }

  class MazeRenderer {
    const originalMaze: Maze
    var maze: Maze

    /** Both the original and the working grid start as copies of `maze`. */
    constructor (maze: Maze)
      ensures originalMaze == maze && this.maze == maze
    {
      this.originalMaze := maze;
      this.maze := maze;
    }

    /** The working grid becomes a fresh copy of the original. */
    method ResetToOriginal()
      modifies this
      ensures maze == originalMaze
    {
      maze := originalMaze;
    }

    /** Writes `symbol` into cell (x, y) unless that cell is a wall. */
    method SetSymbol(x: int, y: int, symbol: char)
      requires InBounds(maze, Point(x, y))
      modifies this
      ensures maze == PaintCell(old(maze), Point(x, y), symbol)
    {
      if maze[y][x] != '#' {
        maze := maze[y := maze[y][x := symbol]];
      }
    }
  }
}
