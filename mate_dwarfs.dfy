/**
 * The C# dwarf: a position, the finish and a movement strategy, and the
 * factory that builds a dwarf from its type name.
 */
module MateDwarfs {
  import opened Wrappers
  import opened Grid
  import opened PathSearch
  import opened MateStrategies

  /** The `IMoveStrategy` a dwarf holds: one of the three implementations. */
  datatype Strategy =
    | WallFollow(wall: WallFollowStrategy)
    | RandomPort(port: RandomPortStrategy)
    | PathFollow(follow: PathFollowingStrategy)

  /** The strategy object itself. */
  function StrategyObject(s: Strategy): object {
    match s
    case WallFollow(w) => w
    case RandomPort(p) => p
    case PathFollow(f) => f
  }

  /** What a strategy remembers between moves. */
  datatype Memory =
    | Facing(direction: Vec)                   // wall follower: the direction it faces
    | LastPort(lastPosition: Option<Point>)    // teleporter: where it last landed
    | Cursor(step: nat)                        // path follower: the next waypoint's index

  /** Everything a move changes: the dwarf's cell and its strategy's memory. */
  datatype DwarfState = DwarfState(position: Point, memory: Memory)

  class Dwarf {
    var position: Point
    const finish: Point
    const strategy: Strategy
    ghost const maze: Maze

    /**
     * The strategy is an object of its own; the dwarf stands on the grid; a wall
     * follower faces a unit direction; a path follower holds a walk over the grid
     * from a cell of the grid to the dwarf's finish, and the dwarf stands on the waypoint
     * last handed out (on the walk's start before that).
     */
    ghost predicate Valid()
      reads this, StrategyObject(strategy)
      ensures Valid() ==> Fits(State())
    {
      && StrategyObject(strategy) != this
      && Rectangular(maze) && InBounds(maze, position)
      && match strategy
         case WallFollow(w) => w.Valid()
         case RandomPort(_) => true
         case PathFollow(f) =>
           && f.Valid() && f.maze == maze && InBounds(maze, f.start)
           && WalkFrom(maze, f.path, f.start) && Last(f.path) == f.finish && f.finish == finish
           && position == (if f.currentStep == 0 then f.start else f.path[f.currentStep - 1])
    }

    constructor (ghost maze: Maze, start: Point, finish: Point, strategy: Strategy)
      ensures this.maze == maze && position == start && this.finish == finish && this.strategy == strategy
    {
      this.maze := maze;
      this.position := start;
      this.finish := finish;
      this.strategy := strategy;
    }

    /** `IsAtFinish`: coordinate-wise equality with the finish. */
    function IsAtFinish(): (r: bool)
      reads this
      ensures r <==> position == finish
    {
      AtFinish(position, finish)
    }

    /** The dwarf's current cell together with its strategy's memory. */
    ghost function State(): DwarfState
      reads this, StrategyObject(strategy)
    {
      DwarfState(position, match strategy
                           case WallFollow(w) => Facing(w.currentDirection)
                           case RandomPort(p) => LastPort(p.lastPosition)
                           case PathFollow(f) => Cursor(f.currentStep))
    }

    /** `s` is a state of this dwarf's kind of strategy. */
    ghost predicate Fits(s: DwarfState) {
      match strategy
      case WallFollow(_) => s.memory.Facing?
      case RandomPort(_) => s.memory.LastPort?
      case PathFollow(f) => s.memory.Cursor? && s.memory.step <= |f.path|
    }

    /**
     * The state after one move from `s`: the wall follower turns and steps as its
     * rule says, the teleporter lands on the drawn open cell (nowhere else when the
     * grid has none), the path follower takes the next waypoint while any remain.
     */
    ghost function Next(s: DwarfState, roll: nat -> nat): (r: DwarfState)
      requires Rectangular(maze) && Fits(s)
      ensures Fits(r)
      ensures strategy.WallFollow? ==> r.position == s.position || Passable(maze, r.position)
      ensures strategy.RandomPort? && r != s ==>
                Passable(maze, r.position) && r.memory == LastPort(Some(r.position))
      ensures strategy.PathFollow? ==>
                r.memory.step == s.memory.step + 1 || (r == s && s.memory.step == |strategy.follow.path|)
    {
      match strategy
      case WallFollow(w) =>
        var d := s.memory.direction;
        DwarfState(WallFollowTarget(w.wallSide, d, s.position, maze),
                   Facing(NextDirection(w.wallSide, d, s.position, maze)))
      case RandomPort(_) =>
        if |OpenCells(maze)| == 0 then s
        else
          var target := PortTarget(OpenCells(maze), s.memory.lastPosition, roll);
          OpenCellsMembers(maze, target);
          DwarfState(target, LastPort(Some(target)))
      case PathFollow(f) =>
        var k := s.memory.step;
        if k < |f.path| then DwarfState(f.path[k], Cursor(k + 1)) else s
    }

    /** `Move`: the position becomes whatever the strategy returns. */
    method Move(maze: Maze, roll: nat -> nat)
      requires Valid() && maze == this.maze
      modifies this, StrategyObject(strategy)
      ensures Valid()
      ensures State() == Next(old(State()), roll)
    {
      match strategy {
        case WallFollow(w) =>
          WallFollowOutcome(w.wallSide, w.currentDirection, position, maze);
          position := w.Move(position, maze);
        case RandomPort(p) =>
          if |OpenCells(maze)| > 0 {
            PortTargetFacts(maze, p.lastPosition, roll);
          }
          position := p.Move(position, maze, roll);
        case PathFollow(f) =>
          position := f.Move(position, maze);
      }
    }

    /**
     * A move keeps a wall follower or a path follower on the same or an adjacent
     * passable cell, and lands a teleporter on a passable cell; either way the
     * dwarf stays on the grid.
     */
    lemma NextStaysOnGrid(roll: nat -> nat)
      requires Valid()
      ensures var r := Next(State(), roll).position;
        && InBounds(maze, r)
        && (!strategy.RandomPort? ==> r == position || (Adjacent(position, r) && Passable(maze, r)))
        && (strategy.RandomPort? && r != position ==> Passable(maze, r))
    {
      match strategy {
        case WallFollow(w) =>
          WallFollowOutcome(w.wallSide, w.currentDirection, position, maze);
        case RandomPort(p) =>
          if |OpenCells(maze)| > 0 {
            PortTargetFacts(maze, p.lastPosition, roll);
          }
        case PathFollow(f) =>
          var k := f.currentStep;
          if 0 < k < |f.path| {
            assert Adjacent(f.path[k - 1], f.path[k]) && Passable(maze, f.path[k]);
          }
      }
    }

    /** A path follower's first move leaves it where it stands: the path begins at the start. */
    lemma PathFollowerFirstMoveStays(roll: nat -> nat)
      requires Valid() && strategy.PathFollow? && strategy.follow.currentStep == 0
      ensures Next(State(), roll).position == position
    {
    }

    /** A path follower that has handed out its whole path stands on the finish. */
    lemma PathFollowerArrives()
      requires Valid() && strategy.PathFollow?
      requires strategy.follow.currentStep == |strategy.follow.path|
      ensures position == finish
    {
    }
  }

  /** ASCII lower-casing of one character. */
  function LowerChar(c: char): char {
    if 'A' <= c <= 'Z' then (c as int + 32) as char else c
  }

  /**
   * `ToLower` on the ASCII letters: the result has no capital letters, and each
   * character is the original one or, for a capital, its small letter.
   */
  function ToLower(s: string): (r: string)
    ensures |r| == |s|
    ensures forall i :: 0 <= i < |r| ==> !('A' <= r[i] <= 'Z')
    ensures forall i :: 0 <= i < |r| ==>
              r[i] == s[i] || ('A' <= s[i] <= 'Z' && r[i] as int == s[i] as int + 32)
  {
    seq(|s|, i requires 0 <= i < |s| => LowerChar(s[i]))
  }

  /** A name without capital letters is its own lower-case form. */
  lemma LowerIsIdentity(s: string)
    requires forall i :: 0 <= i < |s| ==> !('A' <= s[i] <= 'Z')
    ensures ToLower(s) == s
  {
    var r := ToLower(s);
    assert forall i :: 0 <= i < |s| ==> r[i] == s[i];
  }

  /** Lower-casing twice is lower-casing once. */
  lemma ToLowerIdempotent(s: string)
    ensures ToLower(ToLower(s)) == ToLower(s)
  {
    LowerIsIdentity(ToLower(s));
  }

  /** The dwarf types the factory knows. */
  datatype DwarfKind = LeftWallKind | RightWallKind | RandomPortKind | PathFollowKind

  /** The `case` label of each kind. */
  function TypeName(k: DwarfKind): string {
    match k
    case LeftWallKind => "leftwall"
    case RightWallKind => "rightwall"
    case RandomPortKind => "randomport"
    case PathFollowKind => "pathfollow"
  }

  /**
   * The `switch` of `CreateDwarf`: the kind whose label is the lower-cased type
   * name, or none when no label matches.
   */
  function KindOf(dwarfType: string): (r: Option<DwarfKind>)
    ensures r.Some? ==> TypeName(r.value) == ToLower(dwarfType)
    ensures r.None? ==> forall k :: TypeName(k) != ToLower(dwarfType)
  {
    var t := ToLower(dwarfType);
    if t == "leftwall" then Some(LeftWallKind)
    else if t == "rightwall" then Some(RightWallKind)
    else if t == "randomport" then Some(RandomPortKind)
    else if t == "pathfollow" then Some(PathFollowKind)
    else None
  }

  /** The type name is matched without regard to case. */
  lemma KindIgnoresCase(dwarfType: string)
    ensures KindOf(ToLower(dwarfType)) == KindOf(dwarfType)
  {
    ToLowerIdempotent(dwarfType);
  }

  class DwarfFactory {
    /**
     * `CreateDwarf`: the type name, lower-cased, selects the strategy; an unknown
     * name fails, and so does "pathfollow" when the finish cannot be reached.
     */
    static method CreateDwarf(dwarfType: string, maze: Maze, start: Point, finish: Point)
      returns (r: Result<Dwarf, MazeError>)
      requires Rectangular(maze) && InBounds(maze, start)
      ensures r.Failure? <==>
                KindOf(dwarfType).None? ||
                (KindOf(dwarfType) == Some(PathFollowKind) && !Reachable(maze, start, finish))
      ensures r.Failure? ==>
                r.error == if KindOf(dwarfType).None? then UnknownDwarfType(dwarfType) else NoPath
      ensures r.Success? ==>
                && fresh(r.value) && fresh(StrategyObject(r.value.strategy)) && r.value.Valid()
                && r.value.maze == maze && r.value.position == start && r.value.finish == finish
      ensures r.Success? && KindOf(dwarfType) == Some(LeftWallKind) ==>
                r.value.strategy.WallFollow? && r.value.strategy.wall.wallSide == "left"
      ensures r.Success? && KindOf(dwarfType) == Some(RightWallKind) ==>
                r.value.strategy.WallFollow? && r.value.strategy.wall.wallSide == "right"
      ensures r.Success? && KindOf(dwarfType) == Some(RandomPortKind) ==>
                r.value.strategy.RandomPort? && r.value.strategy.port.lastPosition.None?
      ensures r.Success? && KindOf(dwarfType) == Some(PathFollowKind) ==>
                && r.value.strategy.PathFollow? && r.value.strategy.follow.currentStep == 0
                && r.value.strategy.follow.start == start && r.value.strategy.follow.finish == finish
                && r.value.strategy.follow.maze == maze && r.value.strategy.follow.Planned()
    {
      match KindOf(dwarfType) {
        case Some(LeftWallKind) =>
          var s := new WallFollowStrategy("left");
          var d := new Dwarf(maze, start, finish, WallFollow(s));
          return Success(d);
        case Some(RightWallKind) =>
          var s := new WallFollowStrategy("right");
          var d := new Dwarf(maze, start, finish, WallFollow(s));
          return Success(d);
        case Some(RandomPortKind) =>
          var s := new RandomPortStrategy(maze);
          var d := new Dwarf(maze, start, finish, RandomPort(s));
          return Success(d);
        case Some(PathFollowKind) =>
          var s := PathFollowingStrategy.Create(maze, start, finish);
          if s.Failure? {
            return Failure(s.error);
          }
          s.value.FirstWaypointIsStart();
          ShortestPathBounds(maze, start, finish, s.value.path);
          var d := new Dwarf(maze, start, finish, PathFollow(s.value));
          return Success(d);
        case None =>
          return Failure(UnknownDwarfType(dwarfType));
      }
    }
  }
}
