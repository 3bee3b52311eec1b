/**
 * The C# simulation: four dwarfs released one after another, moved once per
 * tick while active and not yet at the finish, and drawn over a copy of the
 * grid whenever one of them changed cell.
 */
module MateSimulation {
  import opened Wrappers
  import opened Grid
  import opened PathSearch
  import opened MateStrategies
  import opened MateDwarfs
  import opened MateRenderer

  /** The configuration list, in order: type, symbol and release time (milliseconds). */
  const DWARF_TYPES: seq<string> := ["leftwall", "rightwall", "pathfollow", "randomport"]
  const DWARF_SYMBOLS: seq<char> := ['L', 'R', 'P', 'T']
  const START_DELAYS: seq<int> := [0, 5000, 10000, 15000]

  /** The activation flags after a tick at `elapsed` milliseconds. */
  function Activated(active: seq<bool>, delays: seq<int>, elapsed: int): (r: seq<bool>)
    requires |active| == |delays|
    ensures |r| == |active|
    ensures forall i :: 0 <= i < |active| ==> (r[i] <==> active[i] || elapsed >= delays[i])
  {
    if |active| == 0 then []
    else
      var n := |active| - 1;
      Activated(active[..n], delays[..n], elapsed) + [active[n] || elapsed >= delays[n]]
  }

  /**
   * A later tick subsumes an earlier one: activating at `e1` and then at a time
   * `e2 >= e1` is activating at `e2` alone.
   */
  lemma ActivationComposes(active: seq<bool>, delays: seq<int>, e1: int, e2: int)
    requires |active| == |delays| && e1 <= e2
    ensures Activated(Activated(active, delays, e1), delays, e2) == Activated(active, delays, e2)
  {
    var once := Activated(active, delays, e1);
    var twice := Activated(once, delays, e2);
    var direct := Activated(active, delays, e2);
    forall i | 0 <= i < |active| ensures twice[i] == direct[i] {
      assert once[i] <==> active[i] || e1 >= delays[i];
    }
  }

  /** With the configured delays every dwarf is active once 15 seconds have passed. */
  lemma AllReleasedAfterFifteenSeconds(active: seq<bool>, elapsed: int)
    requires |active| == |START_DELAYS| && elapsed >= 15000
    ensures Activated(active, START_DELAYS, elapsed) == [true, true, true, true]
  {
    var r := Activated(active, START_DELAYS, elapsed);
    assert r[0] && r[1] && r[2] && r[3];
  }

  /** The configured names select, in order, the left and right wall followers, the path follower and the teleporter. */
  lemma ConfiguredKinds()
    ensures KindOf(DWARF_TYPES[0]) == Some(LeftWallKind) && KindOf(DWARF_TYPES[1]) == Some(RightWallKind)
    ensures KindOf(DWARF_TYPES[2]) == Some(PathFollowKind) && KindOf(DWARF_TYPES[3]) == Some(RandomPortKind)
  {
    LowerIsIdentity(DWARF_TYPES[0]);
    LowerIsIdentity(DWARF_TYPES[1]);
    LowerIsIdentity(DWARF_TYPES[2]);
    LowerIsIdentity(DWARF_TYPES[3]);
  }

  /**
   * The grid with the symbols of the shown dwarfs painted in list order, so on
   * a shared cell the later dwarf wins; walls are never painted.
   */
  function Overlay(g: Maze, cells: seq<Point>, symbols: seq<char>, shown: seq<bool>): (r: Maze)
    requires |cells| == |symbols| == |shown|
    requires forall i :: 0 <= i < |cells| && shown[i] ==> InBounds(g, cells[i])
    ensures |r| == |g| && forall j :: 0 <= j < |g| ==> |r[j]| == |g[j]|
    decreases |cells|
  {
    if |cells| == 0 then g
    else
      var n := |cells| - 1;
      var prev := Overlay(g, cells[..n], symbols[..n], shown[..n]);
      if shown[n] then
        assert InBounds(g, cells[n]) && |prev[cells[n].y]| == |g[cells[n].y]|;
        PaintCell(prev, cells[n], symbols[n])
      else prev
  }

  /**
   * What a cell of the overlay holds: the symbol of the last shown dwarf on it,
   * unless it is a wall or no shown dwarf stands there.
   */
  lemma {:induction false} OverlayCell(g: Maze, cells: seq<Point>, symbols: seq<char>, shown: seq<bool>, p: Point)
    requires |cells| == |symbols| == |shown| && '#' !in symbols
    requires forall i :: 0 <= i < |cells| && shown[i] ==> InBounds(g, cells[i])
    requires InBounds(g, p)
    ensures var r := Overlay(g, cells, symbols, shown);
      && (g[p.y][p.x] == '#' || (forall i :: 0 <= i < |cells| && shown[i] ==> cells[i] != p) ==>
            r[p.y][p.x] == g[p.y][p.x])
      && (forall i :: 0 <= i < |cells| && shown[i] && cells[i] == p && g[p.y][p.x] != '#' &&
                      (forall j :: i < j < |cells| && shown[j] ==> cells[j] != p) ==>
            r[p.y][p.x] == symbols[i])
    decreases |cells|
  {
    if |cells| > 0 {
      var n := |cells| - 1;
      var c, s, h := cells[..n], symbols[..n], shown[..n];
      assert '#' !in s by {
        forall k | 0 <= k < n ensures s[k] != '#' {
          assert s[k] == symbols[k];
        }
      }
      assert forall i :: 0 <= i < n ==> c[i] == cells[i] && s[i] == symbols[i] && h[i] == shown[i];
      OverlayCell(g, c, s, h, p);
      var prev := Overlay(g, c, s, h);
      assert prev[p.y][p.x] == '#' <==> g[p.y][p.x] == '#' by {
        OverlayKeepsWalls(g, c, s, h, p);
      }
    }
  }

  /** The overlay holds a wall exactly where the grid does, when no symbol is `#`. */
  lemma {:induction false} OverlayKeepsWalls(g: Maze, cells: seq<Point>, symbols: seq<char>, shown: seq<bool>, p: Point)
    requires |cells| == |symbols| == |shown| && '#' !in symbols
    requires forall i :: 0 <= i < |cells| && shown[i] ==> InBounds(g, cells[i])
    requires InBounds(g, p)
    ensures var r := Overlay(g, cells, symbols, shown);
      r[p.y][p.x] == '#' <==> g[p.y][p.x] == '#'
    decreases |cells|
  {
    if |cells| > 0 {
      var n := |cells| - 1;
      OverlayKeepsWalls(g, cells[..n], symbols[..n], shown[..n], p);
    }
  }

  /** Whether each dwarf is drawn: active and not at the finish. */
  function ShownFlags(active: seq<bool>, cells: seq<Point>, finish: Point): (r: seq<bool>)
    requires |active| == |cells|
    ensures |r| == |cells| && forall i :: 0 <= i < |cells| ==> (r[i] <==> active[i] && cells[i] != finish)
  {
    seq(|cells|, i requires 0 <= i < |cells| => active[i] && cells[i] != finish)
  }

  /** No two dwarfs of `ds` share a dwarf or strategy object, and no dwarf is another's strategy. */
  ghost predicate Separate(ds: seq<Dwarf>) {
    forall j, k :: 0 <= j < |ds| && 0 <= k < |ds| ==>
      && (j != k ==> ds[j] != ds[k] && StrategyObject(ds[j].strategy) != StrategyObject(ds[k].strategy))
      && ds[j] != StrategyObject(ds[k].strategy)
  }

  /** A dwarf whose two objects are new to `ds` keeps `ds` separate when appended. */
  lemma SeparateAppend(ds: seq<Dwarf>, d: Dwarf)
    requires Separate(ds) && d != StrategyObject(d.strategy)
    requires forall e :: e in ds ==>
               && d != e && d != StrategyObject(e.strategy)
               && StrategyObject(d.strategy) != e && StrategyObject(d.strategy) != StrategyObject(e.strategy)
    ensures Separate(ds + [d])
  {
  }

  /**
   * The dwarfs of one run of `SimulateDwarfs` with their configuration and the
   * renderer. The loop's own variables (the activation flags and the positions
   * recorded on the previous pass) are passed into and out of `Tick`.
   */
  class Simulation {
    const maze: Maze
    const finish: Point
    const dwarfs: seq<Dwarf>
    const symbols: seq<char>
    const startDelays: seq<int>
    const renderer: MazeRenderer

    /** The strategy object of each dwarf, in list order. */
    ghost const strategies: seq<object>
    /** The dwarfs and their strategy objects: everything a move may change. */
    ghost const Movers: set<object>

    /**
     * One configuration entry per dwarf; every dwarf is valid on the shared grid
     * and finish; no two dwarfs share an object, and the renderer is none of them.
     */
    ghost predicate Valid()
      reads Movers
    {
      && |dwarfs| == |strategies| == |symbols| == |startDelays|
      && Movers == (set d | d in dwarfs) + (set d | d in dwarfs :: StrategyObject(d.strategy))
      && Rectangular(maze) && renderer.originalMaze == maze && '#' !in symbols
      && (forall i :: 0 <= i < |dwarfs| ==>
            && strategies[i] == StrategyObject(dwarfs[i].strategy)
            && dwarfs[i].Valid() && dwarfs[i].maze == maze && dwarfs[i].finish == finish)
      && Separate(dwarfs)
      && renderer !in strategies
    }

    constructor (maze: Maze, finish: Point, dwarfs: seq<Dwarf>, symbols: seq<char>, startDelays: seq<int>,
                 renderer: MazeRenderer)
      ensures this.maze == maze && this.finish == finish && this.dwarfs == dwarfs && this.symbols == symbols
      ensures this.startDelays == startDelays && this.renderer == renderer
      requires |dwarfs| == |symbols| == |startDelays|
      requires Rectangular(maze) && renderer.originalMaze == maze && '#' !in symbols && Separate(dwarfs)
      requires forall d :: d in dwarfs ==>
                 d.Valid() && d.maze == maze && d.finish == finish && StrategyObject(d.strategy) != renderer
      ensures Valid()
    {
      this.maze := maze;
      this.finish := finish;
      this.dwarfs := dwarfs;
      this.symbols := symbols;
      this.startDelays := startDelays;
      this.renderer := renderer;
      var strategies := seq(|dwarfs|, i requires 0 <= i < |dwarfs| => StrategyObject(dwarfs[i].strategy));
      this.strategies := strategies;
      this.Movers := (set d | d in dwarfs) + (set d | d in dwarfs :: StrategyObject(d.strategy));
    }

    /** The current cell of every dwarf, in list order. */
    function Positions(): (r: seq<Point>)
      reads dwarfs
      ensures |r| == |dwarfs| && forall i :: 0 <= i < |dwarfs| ==> r[i] == dwarfs[i].position
    {
      seq(|dwarfs|, i requires 0 <= i < |dwarfs| reads dwarfs => dwarfs[i].position)
    }

    /** The state of every dwarf, in list order. */
    ghost function States(): (r: seq<DwarfState>)
      requires Valid()
      reads Movers
      ensures |r| == |dwarfs| && forall i :: 0 <= i < |dwarfs| ==> r[i] == dwarfs[i].State()
    {
      seq(|dwarfs|, i requires 0 <= i < |dwarfs| reads Movers => dwarfs[i].State())
    }

    /**
     * `SimulateDwarfs` up to its loop: the four configured dwarfs, all on the
     * start; no dwarf active; the start recorded as every dwarf's previous
     * position; and the renderer holding a clean copy of the grid. Fails exactly
     * when the path follower cannot be built.
     */
    static method Create(maze: Maze, start: Point, finish: Point)
      returns (r: Result<(Simulation, seq<bool>, seq<Point>), MazeError>)
      requires Rectangular(maze) && InBounds(maze, start)
      ensures r.Success? <==> Reachable(maze, start, finish)
      ensures r.Failure? ==> r.error == NoPath
      ensures r.Success? ==>
                var (s, active, previousPositions) := r.value;
                && fresh(s.Movers) && fresh(s.renderer) && s.Valid()
                && s.maze == maze && s.finish == finish && |s.dwarfs| == 4
                && s.symbols == DWARF_SYMBOLS && s.startDelays == START_DELAYS
                && active == [false, false, false, false]
                && s.Positions() == [start, start, start, start] && previousPositions == s.Positions()
                && s.renderer.maze == maze
                && s.dwarfs[0].strategy.WallFollow? && s.dwarfs[0].strategy.wall.wallSide == "left"
                && s.dwarfs[1].strategy.WallFollow? && s.dwarfs[1].strategy.wall.wallSide == "right"
                && s.dwarfs[2].strategy.PathFollow? && s.dwarfs[3].strategy.RandomPort?
    {
      var renderer := new MazeRenderer(maze);
      var made := Assemble(maze, start, finish, renderer);
      if made.Failure? {
        return Failure(made.error);
      }
      var (sim, previousPositions) := made.value;
      assert renderer !in sim.Movers;
      renderer.ResetToOriginal();
      return Success((sim, [false, false, false, false], previousPositions));
    }

    /** `Create` from the dwarfs to the recorded positions, around a given renderer. */
    static method Assemble(maze: Maze, start: Point, finish: Point, renderer: MazeRenderer)
      returns (r: Result<(Simulation, seq<Point>), MazeError>)
      requires Rectangular(maze) && InBounds(maze, start) && renderer.originalMaze == maze
      ensures r.Success? <==> Reachable(maze, start, finish)
      ensures r.Failure? ==> r.error == NoPath
      ensures r.Success? ==>
                var (s, previousPositions) := r.value;
                && fresh(s.Movers) && s.renderer == renderer && s.Valid()
                && s.maze == maze && s.finish == finish && |s.dwarfs| == 4
                && s.symbols == DWARF_SYMBOLS && s.startDelays == START_DELAYS
                && previousPositions == [start, start, start, start] && s.Positions() == previousPositions
                && s.dwarfs[0].strategy.WallFollow? && s.dwarfs[0].strategy.wall.wallSide == "left"
                && s.dwarfs[1].strategy.WallFollow? && s.dwarfs[1].strategy.wall.wallSide == "right"
                && s.dwarfs[2].strategy.PathFollow? && s.dwarfs[3].strategy.RandomPort?
    {
      var made := CreateDwarfs(maze, start, finish);
      if made.Failure? {
        return Failure(made.error);
      }
      var dwarfs := made.value;
      var sim := new Simulation(maze, finish, dwarfs, DWARF_SYMBOLS, START_DELAYS, renderer);
      var previousPositions := sim.Positions();
      assert previousPositions == [start, start, start, start];
      return Success((sim, previousPositions));
    }

    /**
     * The factory call for entry `i` of the configuration list: the two wall
     * followers and the teleporter are always built, the path follower exactly
     * when the finish can be reached.
     */
    static method CreateConfiguredDwarf(i: nat, maze: Maze, start: Point, finish: Point)
      returns (r: Result<Dwarf, MazeError>)
      requires i < |DWARF_TYPES| && Rectangular(maze) && InBounds(maze, start)
      ensures r.Success? <==> i != 2 || Reachable(maze, start, finish)
      ensures r.Failure? ==> r.error == NoPath
      ensures r.Success? ==>
                && fresh(r.value) && fresh(StrategyObject(r.value.strategy)) && r.value.Valid()
                && r.value.maze == maze && r.value.position == start && r.value.finish == finish
                && (i == 0 ==> r.value.strategy.WallFollow? && r.value.strategy.wall.wallSide == "left")
                && (i == 1 ==> r.value.strategy.WallFollow? && r.value.strategy.wall.wallSide == "right")
                && (i == 2 ==> r.value.strategy.PathFollow?)
                && (i == 3 ==> r.value.strategy.RandomPort?)
    {
      ConfiguredKinds();
      r := DwarfFactory.CreateDwarf(DWARF_TYPES[i], maze, start, finish);
    }

    /** The dwarfs of the configuration list, built in list order; the first failure ends the construction. */
    static method CreateDwarfs(maze: Maze, start: Point, finish: Point) returns (r: Result<seq<Dwarf>, MazeError>)
      requires Rectangular(maze) && InBounds(maze, start)
      ensures r.Success? <==> Reachable(maze, start, finish)
      ensures r.Failure? ==> r.error == NoPath
      ensures r.Success? ==>
                var dwarfs := r.value;
                && |dwarfs| == 4 && Separate(dwarfs)
                && (forall d :: d in dwarfs ==>
                      && fresh(d) && fresh(StrategyObject(d.strategy))
                      && d.Valid() && d.maze == maze && d.position == start && d.finish == finish)
                && dwarfs[0].strategy.WallFollow? && dwarfs[0].strategy.wall.wallSide == "left"
                && dwarfs[1].strategy.WallFollow? && dwarfs[1].strategy.wall.wallSide == "right"
                && dwarfs[2].strategy.PathFollow? && dwarfs[3].strategy.RandomPort?
    {
      var dwarfs: seq<Dwarf> := [];
      for i := 0 to 4
        invariant |dwarfs| == i && Separate(dwarfs)
        invariant i > 2 ==> Reachable(maze, start, finish)
        invariant forall d :: d in dwarfs ==>
                    && fresh(d) && fresh(StrategyObject(d.strategy))
                    && d.Valid() && d.maze == maze && d.position == start && d.finish == finish
        invariant i > 0 ==> dwarfs[0].strategy.WallFollow? && dwarfs[0].strategy.wall.wallSide == "left"
        invariant i > 1 ==> dwarfs[1].strategy.WallFollow? && dwarfs[1].strategy.wall.wallSide == "right"
        invariant i > 2 ==> dwarfs[2].strategy.PathFollow?
        invariant i > 3 ==> dwarfs[3].strategy.RandomPort?
      {
        var made := CreateConfiguredDwarf(i, maze, start, finish);
        if made.Failure? {
          return Failure(made.error);
        }
        SeparateAppend(dwarfs, made.value);
        dwarfs := dwarfs + [made.value];
      }
      return Success(dwarfs);
    }

    /** The activation step of a tick: each inactive dwarf whose delay has passed becomes active. */
    method Activate(active: seq<bool>, elapsed: int) returns (active': seq<bool>)
      requires |active| == |startDelays|
      ensures active' == Activated(active, startDelays, elapsed)
    {
      active' := active;
      for i := 0 to |active|
        invariant |active'| == |active|
        invariant forall j :: 0 <= j < i ==> (active'[j] <==> active[j] || elapsed >= startDelays[j])
        invariant forall j :: i <= j < |active| ==> active'[j] == active[j]
      {
        if !active'[i] && elapsed >= startDelays[i] {
          active' := active'[i := true];
        }
      }
    }

    /** Dwarf `i` moves when it is active and not at the finish, and keeps its state otherwise. */
    method MoveOne(i: nat, active: seq<bool>, roll: nat -> nat)
      requires Valid() && i < |dwarfs| == |active|
      modifies dwarfs[i], strategies[i]
      ensures Valid()
      ensures dwarfs[i].State() ==
                if active[i] && old(dwarfs[i].position) != finish
                then dwarfs[i].Next(old(dwarfs[i].State()), roll) else old(dwarfs[i].State())
    {
      if active[i] && !dwarfs[i].IsAtFinish() {
        dwarfs[i].Move(maze, roll);
      }
    }

    /** The movement step of a tick, over the list in order. */
    method MoveActive(active: seq<bool>, roll: nat -> nat)
      requires Valid() && |active| == |dwarfs|
      modifies Movers
      ensures Valid()
      ensures forall i :: 0 <= i < |dwarfs| ==>
                dwarfs[i].State() ==
                  if active[i] && old(dwarfs[i].position) != finish
                  then dwarfs[i].Next(old(dwarfs[i].State()), roll) else old(dwarfs[i].State())
    {
      for i := 0 to |dwarfs|
        invariant Valid()
        invariant forall j :: 0 <= j < i ==>
                    dwarfs[j].State() ==
                      if active[j] && old(dwarfs[j].position) != finish
                      then dwarfs[j].Next(old(dwarfs[j].State()), roll) else old(dwarfs[j].State())
        invariant forall j :: i <= j < |dwarfs| ==> dwarfs[j].State() == old(dwarfs[j].State())
      {
        MoveOne(i, active, roll);
      }
    }

    /** The change check of a tick: some dwarf stands elsewhere than recorded. */
    method PositionsChanged(previousPositions: seq<Point>) returns (changed: bool)
      requires |previousPositions| == |dwarfs|
      ensures changed <==> Positions() != previousPositions
    {
      changed := false;
      for i := 0 to |dwarfs|
        invariant changed <==> exists j :: 0 <= j < i && previousPositions[j] != dwarfs[j].position
      {
        var oldPos := previousPositions[i];
        var newPos := dwarfs[i].position;
        if oldPos.x != newPos.x || oldPos.y != newPos.y {
          changed := true;
        }
      }
      if !changed {
        assert Positions() == previousPositions;
      }
    }

    /** The redraw of a tick: a clean copy with every shown dwarf painted in list order. */
    method Redraw(active: seq<bool>)
      requires Valid() && |active| == |dwarfs|
      modifies renderer
      ensures renderer.maze == Overlay(maze, Positions(), symbols, ShownFlags(active, Positions(), finish))
    {
      ghost var cells := Positions();
      ghost var shown := ShownFlags(active, cells, finish);
      assert forall j :: 0 <= j < |dwarfs| ==> InBounds(maze, cells[j]);
      renderer.ResetToOriginal();
      for i := 0 to |dwarfs|
        invariant renderer.maze == Overlay(maze, cells[..i], symbols[..i], shown[..i])
      {
        assert cells[..i + 1][..i] == cells[..i];
        assert symbols[..i + 1][..i] == symbols[..i];
        assert shown[..i + 1][..i] == shown[..i];
        var pos := dwarfs[i].position;
        if active[i] && !dwarfs[i].IsAtFinish() {
          renderer.SetSymbol(pos.x, pos.y, symbols[i]);
        }
      }
      assert cells[..|dwarfs|] == cells && symbols[..|dwarfs|] == symbols && shown[..|dwarfs|] == shown;
    }

    /** The first half of a tick: release the dwarfs whose delay has passed, then move the active ones. */
    method Advance(active: seq<bool>, elapsed: int, roll: nat -> nat) returns (active': seq<bool>)
      requires Valid() && |active| == |dwarfs|
      modifies Movers
      ensures Valid()
      ensures active' == Activated(active, startDelays, elapsed)
      ensures forall i :: 0 <= i < |dwarfs| ==>
                dwarfs[i].State() ==
                  if active'[i] && old(dwarfs[i].position) != finish
                  then dwarfs[i].Next(old(dwarfs[i].State()), roll) else old(dwarfs[i].State())
    {
      active' := Activate(active, elapsed);
      MoveActive(active', roll);
    }

    /**
     * The second half of a tick: compare with the recorded positions, redraw
     * when one changed, record the new positions and test for the finish. No
     * dwarf changes.
     */
    method Observe(active: seq<bool>, previousPositions: seq<Point>)
      returns (previousPositions': seq<Point>, positionsChanged: bool, allFinished: bool)
      requires Valid() && |active| == |previousPositions| == |dwarfs|
      modifies renderer
      ensures Valid() && States() == old(States())
      ensures positionsChanged <==> Positions() != previousPositions
      ensures renderer.maze ==
                if positionsChanged then Overlay(maze, Positions(), symbols, ShownFlags(active, Positions(), finish))
                else old(renderer.maze)
      ensures previousPositions' == Positions()
      ensures allFinished <==> forall i :: 0 <= i < |dwarfs| ==> dwarfs[i].position == finish
    {
      assert renderer !in Movers;
      positionsChanged := PositionsChanged(previousPositions);
      if positionsChanged {
        Redraw(active);
      }
      previousPositions' := Positions();
      allFinished := forall i :: 0 <= i < |dwarfs| ==> dwarfs[i].IsAtFinish();
    }

    /**
     * One pass of the simulation loop at `elapsed` milliseconds: release the
     * dwarfs whose delay has passed, move the active ones not at the finish,
     * redraw when a position changed, record the positions and report whether
     * every dwarf is at the finish.
     */
    method Tick(active: seq<bool>, previousPositions: seq<Point>, elapsed: int, roll: nat -> nat)
      returns (active': seq<bool>, previousPositions': seq<Point>, positionsChanged: bool, allFinished: bool)
      requires Valid() && |active| == |previousPositions| == |dwarfs|
      modifies Movers, renderer
      ensures Valid()
      ensures active' == Activated(active, startDelays, elapsed)
      ensures forall i :: 0 <= i < |dwarfs| ==>
                dwarfs[i].State() ==
                  if active'[i] && old(dwarfs[i].position) != finish
                  then dwarfs[i].Next(old(dwarfs[i].State()), roll) else old(dwarfs[i].State())
      ensures positionsChanged <==> Positions() != previousPositions
      ensures renderer.maze ==
                if positionsChanged then Overlay(maze, Positions(), symbols, ShownFlags(active', Positions(), finish))
                else old(renderer.maze)
      ensures previousPositions' == Positions()
      ensures allFinished <==> forall i :: 0 <= i < |dwarfs| ==> dwarfs[i].position == finish
    {
      assert renderer !in Movers;
      active' := Advance(active, elapsed, roll);
      ghost var moved := States();
      previousPositions', positionsChanged, allFinished := Observe(active', previousPositions);
      assert States() == moved;
    }
  }
}
