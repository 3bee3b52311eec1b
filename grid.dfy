/**
 * The character grid shared by both maze programs: `#` is a wall, `S` the start,
 * `F` the finish, any other character open floor. A position is an (x, y) pair,
 * x the column and y the row, y growing downwards.
 */
module Grid {

  type Maze = seq<seq<char>>

  datatype Point = Point(x: int, y: int)

  /** A movement vector (dx, dy). */
  datatype Vec = Vec(dx: int, dy: int)

  /** The errors the setup phase raises; each one aborts the run. */
  datatype MazeError =
    | EmptyMaze                  // maze[0] does not exist
    | RaggedRow(row: nat)        // first row whose length differs from row 0
    | UnevenRows                 // some row's length differs from row 0
    | MissingMarker              // no `S` or no `F`
    | NoPath                     // breadth-first search exhausted its queue
    | UnknownDwarfType(name: string)

  const UP := Vec(0, -1)
  const DOWN := Vec(0, 1)
  const LEFT := Vec(-1, 0)
  const RIGHT := Vec(1, 0)

  /** Neighbour order of both breadth-first searches: up, left, down, right. */
  const NEIGHBOURS: seq<Vec> := [UP, LEFT, DOWN, RIGHT]

  function Step(p: Point, d: Vec): Point {
    Point(p.x + d.dx, p.y + d.dy)
  }

  predicate IsUnit(d: Vec) {
    d == UP || d == DOWN || d == LEFT || d == RIGHT
  }

  /** 4-adjacency. */
  predicate Adjacent(a: Point, b: Point) {
    (a.x == b.x && (a.y == b.y + 1 || a.y + 1 == b.y)) ||
    (a.y == b.y && (a.x == b.x + 1 || a.x + 1 == b.x))
  }

  lemma UnitStepAdjacent(p: Point, d: Vec)
    requires IsUnit(d)
    ensures Adjacent(p, Step(p, d)) && Step(p, d) != p
  {
  }

  lemma NeighboursAreUnits()
    ensures |NEIGHBOURS| == 4
    ensures forall i :: 0 <= i < 4 ==> IsUnit(NEIGHBOURS[i])
  {
  }

  /** Every 4-neighbour of `a` is reached by one of the four search directions. */
  lemma AdjacentIsNeighbourStep(a: Point, b: Point) returns (i: nat)
    requires Adjacent(a, b)
    ensures i < 4 && b == Step(a, NEIGHBOURS[i])
  {
    if b.y + 1 == a.y { i := 0; }
    else if b.x + 1 == a.x { i := 1; }
    else if a.y + 1 == b.y { i := 2; }
    else { i := 3; }
  }

  /** Every row has the length of row 0 (and there is a row 0). */
  predicate Rectangular(maze: Maze) {
    |maze| > 0 && forall i :: 0 <= i < |maze| ==> |maze[i]| == |maze[0]|
  }

  /**
   * `p` lies on the grid. The programs test `x < maze[0].length`; for a
   * rectangular maze, the only kind the strategies see, that is the row's own length.
   */
  predicate InBounds(maze: Maze, p: Point) {
    0 <= p.y < |maze| && 0 <= p.x < |maze[p.y]|
  }

  /** A dwarf may stand on `p`: on the grid and not a wall. */
  predicate Passable(maze: Maze, p: Point) {
    InBounds(maze, p) && maze[p.y][p.x] != '#'
  }

  lemma RectangularBounds(maze: Maze, p: Point)
    requires Rectangular(maze)
    ensures InBounds(maze, p) <==> 0 <= p.x && 0 <= p.y && p.x < |maze[0]| && p.y < |maze|
  {
  }

  /** The set of all passable cells; finite, so it bounds every search. */
  function Cells(maze: Maze): set<Point> {
    set y, x | 0 <= y < |maze| && 0 <= x < |maze[y]| && maze[y][x] != '#' :: Point(x, y)
  }

  lemma CellsArePassable(maze: Maze, p: Point)
    ensures p in Cells(maze) <==> Passable(maze, p)
  {
    if Passable(maze, p) {
      assert p == Point(p.x, p.y);
    }
  }

  /** Arrival test of both programs: coordinate-wise equality with the finish. */
  function AtFinish(position: Point, finish: Point): (r: bool)
    ensures r <==> position == finish
  {
    position.x == finish.x && position.y == finish.y
  }

  /** `g` with the cell at `p` replaced by `c`: one write into the row arrays. */
  function SetCell(g: Maze, p: Point, c: char): (r: Maze)
    requires InBounds(g, p)
    ensures |r| == |g| && forall j :: 0 <= j < |g| ==> |r[j]| == |g[j]|
    ensures forall j, i :: 0 <= j < |g| && 0 <= i < |g[j]| ==>
              r[j][i] == if Point(i, j) == p then c else g[j][i]
  {
    g[p.y := g[p.y][p.x := c]]
  }

  // ---------------------------------------------------------------------------
  // Markers and row-major order

  predicate Holds(maze: Maze, p: Point, c: char) {
    InBounds(maze, p) && maze[p.y][p.x] == c
  }

  ghost predicate Occurs(maze: Maze, c: char) {
    exists p :: Holds(maze, p, c)
  }

  /** `p` comes strictly before `q` in a row-by-row, left-to-right scan. */
  predicate Before(p: Point, q: Point) {
    p.y < q.y || (p.y == q.y && p.x < q.x)
  }

  /** `p` holds `c` and every other cell holding `c` is scanned before it. */
  ghost predicate IsLastOccurrence(maze: Maze, c: char, p: Point) {
    Holds(maze, p, c) && forall q :: Holds(maze, q, c) ==> q == p || Before(q, p)
  }

  // ---------------------------------------------------------------------------
  // Non-wall cells in row-major order

  /** The non-wall cells of row `y` among its first `n` columns, left to right. */
  function RowOpenCells(maze: Maze, y: nat, n: nat): seq<Point>
    requires y < |maze| && n <= |maze[y]|
  {
    if n == 0 then []
    else RowOpenCells(maze, y, n - 1) + (if maze[y][n - 1] != '#' then [Point(n - 1, y)] else [])
  }

  /** The non-wall cells of the first `n` rows, row by row. */
  function OpenCellsUpTo(maze: Maze, n: nat): seq<Point>
    requires n <= |maze|
  {
    if n == 0 then [] else OpenCellsUpTo(maze, n - 1) + RowOpenCells(maze, n - 1, |maze[n - 1]|)
  }

  /** Every non-wall cell of the maze, in row-major order. */
  function OpenCells(maze: Maze): seq<Point> {
    OpenCellsUpTo(maze, |maze|)
  }

  lemma {:induction false} RowOpenCellsMembers(maze: Maze, y: nat, n: nat, p: Point)
    requires y < |maze| && n <= |maze[y]|
    ensures p in RowOpenCells(maze, y, n) <==> p.y == y && 0 <= p.x < n && maze[y][p.x] != '#'
  {
    if n > 0 {
      RowOpenCellsMembers(maze, y, n - 1, p);
    }
  }

  lemma {:induction false} OpenCellsUpToMembers(maze: Maze, n: nat, p: Point)
    requires n <= |maze|
    ensures p in OpenCellsUpTo(maze, n) <==> Passable(maze, p) && p.y < n
  {
    if n > 0 {
      OpenCellsUpToMembers(maze, n - 1, p);
      RowOpenCellsMembers(maze, n - 1, |maze[n - 1]|, p);
    }
  }

  /** The row-major list holds exactly the passable cells. */
  lemma OpenCellsMembers(maze: Maze, p: Point)
    ensures p in OpenCells(maze) <==> Passable(maze, p)
  {
    OpenCellsUpToMembers(maze, |maze|, p);
  }
}
