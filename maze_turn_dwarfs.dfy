/**
 * The two depth-first "turning" dwarfs of the JavaScript program. Each move tries
 * up to four directions, starting with the one it faces and turning after every
 * blocked try; the first cell that is on the grid, not a wall and not yet visited
 * is entered and the old position pushed on a stack. When all four tries fail the
 * dwarf steps back to the position on top of the stack.
 *
 * LeftTurnDwarf turns by +3 (mod 4) over the table [up, left, down, right];
 * RightTurnDwarf turns by +1 over [up, right, down, left]. Both therefore try the
 * absolute directions up, right, down, left, and the two dwarfs walk identically.
 */
module MazeTurnDwarfs {
  import opened Grid

  /** What a move of a turning dwarf reads and writes. */
  datatype Walker = Walker(position: Point, visited: set<Point>, stack: seq<Point>,
                           currentDirection: nat)

  const LEFT_TURN_DIRECTIONS: seq<Vec> := [UP, LEFT, DOWN, RIGHT]
  const LEFT_TURN: nat := 3
  const RIGHT_TURN_DIRECTIONS: seq<Vec> := [UP, RIGHT, DOWN, LEFT]
  const RIGHT_TURN: nat := 1

  /**
   * The dwarfs' `isValidMove`: inside `maze[0].length` columns and `maze.length`
   * rows, not a wall, not visited.
   */
  function IsValidMove(maze: Maze, visited: set<Point>, x: int, y: int): (r: bool)
    requires Rectangular(maze)
    ensures r <==> Passable(maze, Point(x, y)) && Point(x, y) !in visited
  {
    x >= 0 && y >= 0 && x < |maze[0]| && y < |maze| && maze[y][x] != '#' && Point(x, y) !in visited
  }

  /**
   * After the four tries failed: pop the stack into the position, if there is
   * anything to pop. Pushing the new position back gives the old stack; the
   * visited set and the direction are kept.
   */
  function Backtrack(w: Walker): (r: Walker)
    ensures r.visited == w.visited && r.currentDirection == w.currentDirection
    ensures |w.stack| > 0 ==> r.stack + [r.position] == w.stack
    ensures |w.stack| == 0 ==> r == w
  {
    if |w.stack| > 0 then w.(position := w.stack[|w.stack| - 1], stack := w.stack[..|w.stack| - 1])
    else w
  }

  /** One turn: `(c + turn) % 4`, written without the remainder (RotateIsMod). */
  function Rotate(c: nat, turn: nat): (r: nat)
    requires c < 4 && turn < 4
    ensures r < 4
  {
    if c + turn >= 4 then c + turn - 4 else c + turn
  }

  lemma RotateIsMod(c: nat, turn: nat)
    requires c < 4 && turn < 4
    ensures Rotate(c, turn) == (c + turn) % 4
  {
  }

  /** The direction index after `k` turns of `turn` from index `c`. */
  function Turned(c: nat, turn: nat, k: nat): (r: nat)
    requires c < 4 && turn < 4
    ensures r < 4
  {
    if k == 0 then c else Rotate(Turned(c, turn, k - 1), turn)
  }

  /**
   * The rest of a move once `i` tries have failed. The visited set only grows;
   * when it grows, the dwarf entered a fresh passable cell, which is added, and
   * pushed its old position.
   */
  function TryFrom(maze: Maze, directions: seq<Vec>, turn: nat, w: Walker, i: nat): (r: Walker)
    requires Rectangular(maze) && |directions| == 4 && turn < 4 && w.currentDirection < 4 && i <= 4
    ensures r.currentDirection < 4
    ensures w.visited <= r.visited
    ensures r.visited != w.visited ==>
              && Passable(maze, r.position) && r.position !in w.visited
              && r.visited == w.visited + {r.position} && r.stack == w.stack + [w.position]
    decreases 4 - i
  {
    if i == 4 then Backtrack(w)
    else
      var d := directions[w.currentDirection];
      var next := Step(w.position, d);
      if IsValidMove(maze, w.visited, next.x, next.y) then
        w.(position := next, visited := w.visited + {next}, stack := w.stack + [w.position])
      else
        TryFrom(maze, directions, turn, w.(currentDirection := Rotate(w.currentDirection, turn)), i + 1)
  }

  /** Try `i` succeeds when the faced neighbour can be entered. */
  lemma TryEnters(maze: Maze, directions: seq<Vec>, turn: nat, w: Walker, i: nat, next: Point)
    requires Rectangular(maze) && |directions| == 4 && turn < 4 && w.currentDirection < 4 && i < 4
    requires next == Step(w.position, directions[w.currentDirection])
    requires IsValidMove(maze, w.visited, next.x, next.y)
    ensures TryFrom(maze, directions, turn, w, i) ==
            w.(position := next, visited := w.visited + {next}, stack := w.stack + [w.position])
  {
  }

  /** Try `i` fails when the faced neighbour cannot be entered, and the dwarf turns. */
  lemma TryTurns(maze: Maze, directions: seq<Vec>, turn: nat, w: Walker, i: nat, next: Point)
    requires Rectangular(maze) && |directions| == 4 && turn < 4 && w.currentDirection < 4 && i < 4
    requires next == Step(w.position, directions[w.currentDirection])
    requires !IsValidMove(maze, w.visited, next.x, next.y)
    ensures TryFrom(maze, directions, turn, w, i) ==
            TryFrom(maze, directions, turn, w.(currentDirection := Rotate(w.currentDirection, turn)), i + 1)
  {
  }

  /**
   * One call of `move()`: the visited set only grows, and grows exactly by a
   * fresh passable cell the dwarf entered, pushing its old position.
   */
  function TurnMove(maze: Maze, directions: seq<Vec>, turn: nat, w: Walker): (r: Walker)
    requires Rectangular(maze) && |directions| == 4 && turn < 4 && w.currentDirection < 4
    ensures r.currentDirection < 4 && w.visited <= r.visited
    ensures r.visited != w.visited ==>
              && Passable(maze, r.position) && r.position !in w.visited
              && r.visited == w.visited + {r.position} && r.stack == w.stack + [w.position]
  {
    TryFrom(maze, directions, turn, w, 0)
  }

  /** The move entered a fresh neighbouring cell and pushed the old position. */
  ghost predicate Advanced(maze: Maze, w: Walker, r: Walker) {
    && Adjacent(w.position, r.position)
    && Passable(maze, r.position)
    && r.position !in w.visited
    && r.visited == w.visited + {r.position}
    && r.stack == w.stack + [w.position]
  }

  /**
   * The move found nothing to enter: the direction is back where it was and the
   * dwarf popped the stack, or stayed put when the stack was empty.
   */
  ghost predicate BackedOff(w: Walker, r: Walker) {
    && r.currentDirection == w.currentDirection
    && r.visited == w.visited
    && if |w.stack| > 0 then r.position == w.stack[|w.stack| - 1] && r.stack == w.stack[..|w.stack| - 1]
       else r == w
  }

  /** No neighbour of `p` can be entered. */
  ghost predicate Blocked(maze: Maze, visited: set<Point>, p: Point) {
    forall q :: Adjacent(p, q) ==> !Passable(maze, q) || q in visited
  }

  predicate IsTurnTable(directions: seq<Vec>, turn: nat) {
    (directions == LEFT_TURN_DIRECTIONS && turn == LEFT_TURN) ||
    (directions == RIGHT_TURN_DIRECTIONS && turn == RIGHT_TURN)
  }

  /**
   * Every try from number `i` on was blocked, the dwarf facing index `c` at try
   * `i` and turning by `turn` after each.
   */
  ghost predicate TriedAll(maze: Maze, directions: seq<Vec>, turn: nat, p: Point, visited: set<Point>,
                           c: nat, i: nat)
    requires |directions| == 4 && turn < 4 && c < 4 && i <= 4
    decreases 4 - i
  {
    i == 4 ||
    (!CanEnter(maze, p, visited, directions[c]) &&
     TriedAll(maze, directions, turn, p, visited, Rotate(c, turn), i + 1))
  }

  ghost predicate CanEnter(maze: Maze, p: Point, visited: set<Point>, d: Vec) {
    Passable(maze, Step(p, d)) && Step(p, d) !in visited
  }

  lemma {:induction false} TryFromOutcome(maze: Maze, directions: seq<Vec>, turn: nat,
                                          w: Walker, i: nat, c0: nat)
    requires Rectangular(maze) && |directions| == 4 && turn < 4 && i <= 4
    requires forall k :: 0 <= k < 4 ==> IsUnit(directions[k])
    requires c0 < 4 && w.currentDirection < 4 && w.currentDirection == Turned(c0, turn, i)
    ensures var r := TryFrom(maze, directions, turn, w, i);
      Advanced(maze, w, r) ||
      (TriedAll(maze, directions, turn, w.position, w.visited, w.currentDirection, i) &&
       BackedOff(w.(currentDirection := Turned(c0, turn, 4)), r))
    decreases 4 - i
  {
    if i < 4 {
      var d := directions[w.currentDirection];
      var next := Step(w.position, d);
      UnitStepAdjacent(w.position, d);
      if !IsValidMove(maze, w.visited, next.x, next.y) {
        var w' := w.(currentDirection := Rotate(w.currentDirection, turn));
        TryFromOutcome(maze, directions, turn, w', i + 1, c0);
        assert w'.(currentDirection := Turned(c0, turn, 4)) == w.(currentDirection := Turned(c0, turn, 4));
      }
    }
  }

  /** Four turns of either table bring the dwarf back to the direction it faced. */
  lemma FullTurn(directions: seq<Vec>, turn: nat, c: nat)
    requires IsTurnTable(directions, turn) && c < 4
    ensures Turned(c, turn, 4) == c
  {
    assert Turned(c, turn, 4) == Rotate(Rotate(Rotate(Rotate(c, turn), turn), turn), turn);
  }

  /** The four tries of a move face four different directions: all of them. */
  lemma FourTriesCoverAll(directions: seq<Vec>, turn: nat, c: nat, d: Vec)
    requires IsTurnTable(directions, turn) && c < 4 && IsUnit(d)
    ensures d == directions[c] || d == directions[Turned(c, turn, 1)] ||
            d == directions[Turned(c, turn, 2)] || d == directions[Turned(c, turn, 3)]
  {
    assert Turned(c, turn, 1) == Rotate(c, turn);
    assert Turned(c, turn, 2) == Rotate(Turned(c, turn, 1), turn);
    assert Turned(c, turn, 3) == Rotate(Turned(c, turn, 2), turn);
    if turn == LEFT_TURN {
      if c == 0 {} else if c == 1 {} else if c == 2 {} else {}
    } else {
      if c == 0 {} else if c == 1 {} else if c == 2 {} else {}
    }
  }

  /** When all four tries failed, every neighbour is off the grid, a wall or visited. */
  lemma TriedAllMeansBlocked(maze: Maze, directions: seq<Vec>, turn: nat, w: Walker)
    requires IsTurnTable(directions, turn) && w.currentDirection < 4
    requires TriedAll(maze, directions, turn, w.position, w.visited, w.currentDirection, 0)
    ensures Blocked(maze, w.visited, w.position)
  {
    var c := w.currentDirection;
    assert TriedAll(maze, directions, turn, w.position, w.visited, Turned(c, turn, 1), 1);
    assert TriedAll(maze, directions, turn, w.position, w.visited, Turned(c, turn, 2), 2);
    assert TriedAll(maze, directions, turn, w.position, w.visited, Turned(c, turn, 3), 3);
    forall q | Adjacent(w.position, q) ensures !Passable(maze, q) || q in w.visited {
      var k := AdjacentIsNeighbourStep(w.position, q);
      NeighboursAreUnits();
      FourTriesCoverAll(directions, turn, c, NEIGHBOURS[k]);
    }
  }

  /**
   * A move either enters an adjacent, passable, unvisited cell (visited grows by
   * that cell, the stack by the old position), or, only when every neighbour is
   * blocked, leaves the direction unchanged and pops the stack (nothing changes
   * on an empty stack). The direction index stays in 0..3.
   */
  lemma TurnMoveOutcome(maze: Maze, directions: seq<Vec>, turn: nat, w: Walker)
    requires Rectangular(maze) && IsTurnTable(directions, turn) && w.currentDirection < 4
    ensures var r := TurnMove(maze, directions, turn, w);
      && w.visited <= r.visited
      && (Advanced(maze, w, r) || (Blocked(maze, w.visited, w.position) && BackedOff(w, r)))
  {
    assert forall k :: 0 <= k < 4 ==> IsUnit(directions[k]);
    TryFromOutcome(maze, directions, turn, w, 0, w.currentDirection);
    FullTurn(directions, turn, w.currentDirection);
    var r := TurnMove(maze, directions, turn, w);
    if !Advanced(maze, w, r) {
      TriedAllMeansBlocked(maze, directions, turn, w);
    }
  }

  // ---------------------------------------------------------------------------
  // The two dwarfs behave alike

  /**
   * Same position, visited set and stack, and the right-turn index is the mirror
   * of the left-turn index, so that both name the same direction (MirroredIndex).
   */
  predicate Corresponds(l: Walker, r: Walker) {
    && l.position == r.position && l.visited == r.visited && l.stack == r.stack
    && l.currentDirection < 4 && r.currentDirection == Mirror(l.currentDirection)
  }

  /** -c (mod 4). */
  function Mirror(c: nat): nat
    requires c < 4
  {
    if c == 0 then 0 else 4 - c
  }

  /** Index c of the left-turn table and index -c (mod 4) of the right-turn table agree. */
  lemma MirroredIndex(c: nat)
    requires c < 4
    ensures LEFT_TURN_DIRECTIONS[c] == RIGHT_TURN_DIRECTIONS[Mirror(c)]
  {
  }

  lemma {:induction false} TryFromCorresponds(maze: Maze, l: Walker, r: Walker, i: nat)
    requires Rectangular(maze) && Corresponds(l, r) && i <= 4
    ensures Corresponds(TryFrom(maze, LEFT_TURN_DIRECTIONS, LEFT_TURN, l, i),
                        TryFrom(maze, RIGHT_TURN_DIRECTIONS, RIGHT_TURN, r, i))
    decreases 4 - i
  {
    if i < 4 {
      MirroredIndex(l.currentDirection);
      var next := Step(l.position, LEFT_TURN_DIRECTIONS[l.currentDirection]);
      if !IsValidMove(maze, l.visited, next.x, next.y) {
        TryFromCorresponds(maze, l.(currentDirection := Rotate(l.currentDirection, LEFT_TURN)),
                           r.(currentDirection := Rotate(r.currentDirection, RIGHT_TURN)), i + 1);
      }
    }
  }

  /** From corresponding states, one move of each dwarf ends in corresponding states. */
  lemma LeftRightMoveAlike(maze: Maze, l: Walker, r: Walker)
    requires Rectangular(maze) && Corresponds(l, r)
    ensures Corresponds(TurnMove(maze, LEFT_TURN_DIRECTIONS, LEFT_TURN, l),
                        TurnMove(maze, RIGHT_TURN_DIRECTIONS, RIGHT_TURN, r))
  {
    TryFromCorresponds(maze, l, r, 0);
  }

  /** `n` successive moves. */
  function Moves(maze: Maze, directions: seq<Vec>, turn: nat, w: Walker, n: nat): Walker
    requires Rectangular(maze) && |directions| == 4 && turn < 4 && w.currentDirection < 4
    decreases n
  {
    if n == 0 then w
    else Moves(maze, directions, turn, TurnMove(maze, directions, turn, w), n - 1)
  }

  /** The state both dwarfs are constructed in. */
  function Initial(start: Point): Walker {
    Walker(start, {start}, [start], 0)
  }

  /**
   * Started on the same maze and cell, the two dwarfs stand on the same cell,
   * with the same visited set and stack, after any number of moves.
   */
  lemma {:induction false} LeftRightWalkAlike(maze: Maze, start: Point, n: nat)
    requires Rectangular(maze)
    ensures Corresponds(Moves(maze, LEFT_TURN_DIRECTIONS, LEFT_TURN, Initial(start), n),
                        Moves(maze, RIGHT_TURN_DIRECTIONS, RIGHT_TURN, Initial(start), n))
  {
    MovesAlike(maze, Initial(start), Initial(start), n);
  }

  lemma {:induction false} MovesAlike(maze: Maze, l: Walker, r: Walker, n: nat)
    requires Rectangular(maze) && Corresponds(l, r)
    ensures Corresponds(Moves(maze, LEFT_TURN_DIRECTIONS, LEFT_TURN, l, n),
                        Moves(maze, RIGHT_TURN_DIRECTIONS, RIGHT_TURN, r, n))
    decreases n
  {
    if n > 0 {
      var l' := TurnMove(maze, LEFT_TURN_DIRECTIONS, LEFT_TURN, l);
      var r' := TurnMove(maze, RIGHT_TURN_DIRECTIONS, RIGHT_TURN, r);
      LeftRightMoveAlike(maze, l, r);
      MovesAlike(maze, l', r', n - 1);
      MovesFirst(maze, LEFT_TURN_DIRECTIONS, LEFT_TURN, l, n);
      MovesFirst(maze, RIGHT_TURN_DIRECTIONS, RIGHT_TURN, r, n);
    }
  }

  /** `n` moves are one move followed by `n - 1` more. */
  lemma MovesFirst(maze: Maze, directions: seq<Vec>, turn: nat, w: Walker, n: nat)
    requires Rectangular(maze) && |directions| == 4 && turn < 4 && w.currentDirection < 4 && n > 0
    ensures Moves(maze, directions, turn, w, n) ==
            Moves(maze, directions, turn, TurnMove(maze, directions, turn, w), n - 1)
  {
  }

  // ---------------------------------------------------------------------------
  // The classes

  /** The dwarf that turns by +3 over [up, left, down, right]. */
  class LeftTurnDwarf {
    const maze: Maze
    var position: Point
    const finish: Point
    var visited: set<Point>
    const directions: seq<Vec>
    var currentDirection: nat
    var stack: seq<Point>

    ghost predicate Valid()
      reads this
    {
      Rectangular(maze) && directions == LEFT_TURN_DIRECTIONS && currentDirection < 4
    }

    function State(): Walker
      reads this
    {
      Walker(position, visited, stack, currentDirection)
    }

    /** Starts on `start`, facing up, with `start` visited and on the stack. */
    constructor (maze: Maze, start: Point, finish: Point)
      requires Rectangular(maze)
      ensures Valid() && this.maze == maze && this.finish == finish
      ensures State() == Initial(start)
    {
      this.maze := maze;
      this.position := start;
      this.finish := finish;
      this.visited := {start};
      this.directions := LEFT_TURN_DIRECTIONS;
      this.currentDirection := 0;
      this.stack := [start];
    }

    method Move()
      requires Valid()
      modifies this
      ensures Valid()
      ensures State() == TurnMove(maze, directions, LEFT_TURN, old(State()))
    {
      for i := 0 to 4
        invariant Valid()
        invariant TryFrom(maze, directions, LEFT_TURN, State(), i) ==
                  TryFrom(maze, directions, LEFT_TURN, old(State()), 0)
      {
        ghost var before := State();
        var d := directions[currentDirection];
        var newX := position.x + d.dx;
        var newY := position.y + d.dy;
        if IsValidMove(maze, visited, newX, newY) {
          TryEnters(maze, directions, LEFT_TURN, before, i, Point(newX, newY));
          stack := stack + [position];
          position := Point(newX, newY);
          visited := visited + {position};
          return;
        }
        TryTurns(maze, directions, LEFT_TURN, before, i, Point(newX, newY));
        RotateIsMod(currentDirection, LEFT_TURN);
        currentDirection := (currentDirection + 3) % 4;
        assert State() == before.(currentDirection := Rotate(before.currentDirection, LEFT_TURN));
      }
      if |stack| > 0 {
        position := stack[|stack| - 1];
        stack := stack[..|stack| - 1];
      }
    }
  }

  /** The dwarf that turns by +1 over [up, right, down, left]. */
  class RightTurnDwarf {
    const maze: Maze
    var position: Point
    const finish: Point
    var visited: set<Point>
    const directions: seq<Vec>
    var currentDirection: nat
    var stack: seq<Point>

    ghost predicate Valid()
      reads this
    {
      Rectangular(maze) && directions == RIGHT_TURN_DIRECTIONS && currentDirection < 4
    }

    function State(): Walker
      reads this
    {
      Walker(position, visited, stack, currentDirection)
    }

    /** Starts on `start`, facing up, with `start` visited and on the stack. */
    constructor (maze: Maze, start: Point, finish: Point)
      requires Rectangular(maze)
      ensures Valid() && this.maze == maze && this.finish == finish
      ensures State() == Initial(start)
    {
      this.maze := maze;
      this.position := start;
      this.finish := finish;
      this.visited := {start};
      this.directions := RIGHT_TURN_DIRECTIONS;
      this.currentDirection := 0;
      this.stack := [start];
    }

    method Move()
      requires Valid()
      modifies this
      ensures Valid()
      ensures State() == TurnMove(maze, directions, RIGHT_TURN, old(State()))
    {
      for i := 0 to 4
        invariant Valid()
        invariant TryFrom(maze, directions, RIGHT_TURN, State(), i) ==
                  TryFrom(maze, directions, RIGHT_TURN, old(State()), 0)
      {
        ghost var before := State();
        var d := directions[currentDirection];
        var newX := position.x + d.dx;
        var newY := position.y + d.dy;
        if IsValidMove(maze, visited, newX, newY) {
          TryEnters(maze, directions, RIGHT_TURN, before, i, Point(newX, newY));
          stack := stack + [position];
          position := Point(newX, newY);
          visited := visited + {position};
          return;
        }
        TryTurns(maze, directions, RIGHT_TURN, before, i, Point(newX, newY));
        RotateIsMod(currentDirection, RIGHT_TURN);
        currentDirection := (currentDirection + 1) % 4;
        assert State() == before.(currentDirection := Rotate(before.currentDirection, RIGHT_TURN));
      }
      if |stack| > 0 {
        position := stack[|stack| - 1];
        stack := stack[..|stack| - 1];
      }
    }
  }
}
