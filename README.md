# Dwarfs in a maze, in Dafny

The repository holds one program written twice: `Mate.cs` (C#) and `Maze.js`
(JavaScript). Both read a character grid (`#` wall, `S` start, `F` finish,
anything else open floor). Several "dwarfs" then walk it from the start to the
finish, each by its own rule. This project models the grid checks, every movement
rule, both renderers and one tick of the C# simulation loop, and proves what each
of them promises.

Modules, one concern each:

- `Grid` (`grid.dfy`): cells, directions, bounds, the row-major order, and the non-wall cells in scan order.
- `PathSearch` (`path_search.dfy`): what a breadth-first search promises, namely a shortest, repetition-free walk of 4-adjacent passable cells. It also holds the loop invariant that both searches share.
- `MateSetup` and `MazeSetup` (`mate_setup.dfy`, `maze_setup.dfy`): row-length validation and the search for the `S` and `F` markers.
- `MateStrategies` (`mate_strategies.dfy`): the C# `WallFollowStrategy`, `RandomPortStrategy` and `PathFollowingStrategy`.
- `MateDwarfs` (`mate_dwarfs.dfy`): the C# `Dwarf` and `DwarfFactory`.
- `MateRenderer` (`mate_renderer.dfy`): the C# `MazeRenderer`.
- `MateSimulation` (`mate_simulation.dfy`): `SimulateDwarfs`, covering the set-up and one pass of its loop.
- `MazeTurnDwarfs` (`maze_turn_dwarfs.dfy`): the JavaScript `LeftTurnDwarf` and `RightTurnDwarf`, and the proof that they walk identically.
- `MazeDwarfs` (`maze_dwarfs.dfy`): the JavaScript `RandomPortDwarf` and `PathFollowingDwarf`.
- `MazeRender` (`maze_render.dfy`): the JavaScript `MazeRenderMap`.

Each object whose fields the source updates in place is a class with those fields:
- the strategies, the dwarfs and both renderers;
- the breadth-first search's `bool[,]` visited array is an `array2<bool>`.

The C# simulation loop updates two more things: each record's `Active` flag
(Mate.cs:383, 404) and the list of recorded positions (Mate.cs:387, 462). Both
are loop values: `Simulation.Tick` takes them in and returns their new values.
`Simulation` itself holds only the configuration, which never changes.

Pure helpers are functions. Each method's contract ties its new state to a
specification function, and lemmas prove the properties of that function.

Randomness is a parameter:
- C# `new Random().Next(count)` on try `t` is `roll(t) % count`, for any `roll: nat -> nat` the caller picks.
- JavaScript `Math.random() < 0.1` is a boolean `teleportNow`.

Throwing code returns `Result` with a `MazeError`: `EmptyMaze`, `RaggedRow`,
`UnevenRows`, `MissingMarker`, `NoPath` or `UnknownDwarfType`.

### Behaviour worth knowing

- **Duplicate markers.** The marker scan overwrites on every hit, so the last
  `S` and the last `F` in row-major order win (Mate.cs:70-83, Maze.js:70-75).
- **Turning away from the wall.** A wall follower that turns away from the wall
  still steps that way when the cell is free (Mate.cs:195-204).
- **`RotateLeft`.** It maps (dx, dy) to (-dy, dx). With y growing downwards,
  that is a clockwise quarter turn on screen (`RotationCycle`, `QuarterTurns`).
  The model keeps the code's names and arithmetic.
- **`Active` flags.** `SimulateDwarfs` stores `Active` in an anonymous type,
  whose properties are read-only, and then assigns to it (Mate.cs:378-384, 404).
  The model keeps the activation flags as mutable loop state, which is what the
  loop evidently means; `Tick` takes them in and returns them.

## Model

| member | source | states |
|---|---|---|
| `Grid.AtFinish` | Mate.cs:153-156 | true exactly when the position equals the finish (C# `IsAtFinish`; JavaScript `isAtFinish` at Maze.js:123-125 is the same test) |
| `Grid.OpenCellsMembers` | Mate.cs:262-276 | the row-major list of non-wall cells holds exactly the cells that are on the grid and not a wall |
| `PathSearch.ShortestPathBounds` | Mate.cs:328 | every point of a path found from an in-bounds start is on the grid |
| `MateSetup.ValidateMaze` | Mate.cs:51-62 | succeeds exactly when the grid is rectangular; an empty grid fails; otherwise the error names the first row, from the top, whose length differs from row 0 |
| `MateSetup.FindStartAndFinish` | Mate.cs:65-91 | succeeds exactly when both `S` and `F` occur; then it returns the last `S` and the last `F` in row-major order; otherwise it fails with a missing-marker error (the JavaScript `findStartAndFinish`, Maze.js:66-81, is the same scan) |
| `MateSetup.ScanRow` | Mate.cs:72-82 | after one row, each marker found so far is the last occurrence scanned, or none when the marker has not appeared |
| `MateSetup.RowDone` | Mate.cs:70 | reaching the end of a row is reaching the start of the next one, for the scan state |
| `MateSetup.ScanDone` | Mate.cs:85-90 | at the end of the scan nothing was kept exactly when the marker does not occur, and what was kept is its last occurrence |
| `MateSetup.Advance` | Mate.cs:74-81 | stepping past one cell keeps the scan state correct, replacing the kept point when the cell holds the marker |
| `MazeSetup.ValidateMaze` | Maze.js:49-63 | returns the width of row 0 exactly when every row has that length; fails on an empty grid and on uneven rows |
| `MateStrategies.RotationsInverse` | Mate.cs:216-224 | `RotateLeft` and `RotateRight` undo each other; four applications of either give the identity |
| `MateStrategies.RotateLeft` | Mate.cs:216-219 | (dx, dy) becomes (-dy, dx); a unit direction becomes a unit direction that is neither the same nor its reverse |
| `MateStrategies.RotateRight` | Mate.cs:221-224 | (dx, dy) becomes (dy, -dx); a unit direction becomes a unit direction that is neither the same nor its reverse |
| `MateStrategies.QuarterTurns` | Mate.cs:216-224 | each rotation gives a vector at right angles to the old one and as long; the cross product's sign shows `RotateLeft` turning clockwise and `RotateRight` anticlockwise on the y-down grid |
| `MateStrategies.RotationCycle` | Mate.cs:216-219 | `RotateLeft` runs up, right, down, left: clockwise on the y-down grid |
| `MateStrategies.CanMove` | Mate.cs:209-214 | true exactly when one step along the direction lands on the grid and off the walls |
| `MateStrategies.NextDirection` | Mate.cs:183-196 | the direction the move leaves: the old one or a quarter turn of it, never a U-turn; the turn towards the wall whenever that cell is free; the turn away only when the wall-side cell and the cell ahead are both blocked |
| `MateStrategies.WallFollowTarget` | Mate.cs:198-206 | the returned position is the old one or one step along the new direction onto a free cell; a free cell on the wall side is always the one taken |
| `MateStrategies.WallFollowOutcome` | Mate.cs:181-207 | the new direction is a unit vector, never the reverse of the old one; the dwarf moves to an adjacent passable cell, and stays put exactly when the left, straight-ahead and right cells are all blocked |
| `MateStrategies.WallFollowStrategy.constructor` | Mate.cs:174-179 | the strategy starts facing down, (0, 1), with the given wall side |
| `MateStrategies.WallFollowStrategy.Move` | Mate.cs:181-207 | the new direction is the wall-side turn if that cell is free, else the old direction if the cell ahead is free, else the turn away; the result is one step that way if that cell is free, else the position unchanged |
| `MateStrategies.FindEmptyPositions` | Mate.cs:262-276 | returns the non-wall cells in row-major order; a point is in the list exactly when it is passable |
| `MateStrategies.AppendOpenCellsOfRow` | Mate.cs:267-273 | appends the non-wall cells of one row, left to right |
| `MateStrategies.Draw` | Mate.cs:253-254 | every draw is one of the candidate cells |
| `MateStrategies.PortTries` | Mate.cs:249-256 | the retry loop makes at least one and at most `2 × count` tries |
| `MateStrategies.PortTarget` | Mate.cs:249-258 | the cell the retry loop settles on is one of the candidates; with no previous target it is the first draw |
| `MateStrategies.PortTriesStop` | Mate.cs:251-256 | with no previous target the first draw is taken; otherwise every draw before the last repeated the previous target, and the last one repeats it only when all `2 × count` tries were used |
| `MateStrategies.PortTargetFacts` | Mate.cs:238-260 | the teleport target is a non-wall cell; it equals the previous target only when all `2 × count` draws were that target; without a previous target it is the first draw |
| `MateStrategies.RandomPortStrategy.constructor` | Mate.cs:233-236 | keeps the grid and starts with no previous target |
| `MateStrategies.RandomPortStrategy.Move` | Mate.cs:238-260 | with no non-wall cell the position and the previous target are unchanged; otherwise it returns the target the retry loop settles on, which becomes the new previous target |
| `MateStrategies.Mark` | Mate.cs:330 | setting `visited[y, x]` makes the array stand for the visited set plus that cell |
| `MateStrategies.PathFollowingStrategy.WithPath` | Mate.cs:285-289 | a strategy over a shortest path, cursor at 0 |
| `MateStrategies.PathFollowingStrategy.Create` | Mate.cs:285-289 | construction succeeds exactly when the finish is reachable and otherwise fails with no path; the new strategy holds a shortest path from start to finish, cursor at 0 |
| `MateStrategies.PathFollowingStrategy.Move` | Mate.cs:291-298 | while waypoints remain it returns `path[currentStep]` and advances the cursor by one; afterwards it returns the given position and the cursor stays put |
| `MateStrategies.PathFollowingStrategy.FirstWaypointIsStart` | Mate.cs:309-320 | the planned path begins at the start and ends at the finish |
| `MateStrategies.PathFollowingStrategy.FindPath` | Mate.cs:300-338 | succeeds exactly when the finish is reachable; the path starts at the start, ends at the finish, joins 4-adjacent non-wall cells, repeats no cell and is as short as any walk; otherwise the error is no path |
| `MateStrategies.PathFollowingStrategy.ExpandPath` | Mate.cs:323-334 | expanding the dequeued path marks and enqueues each free, unvisited neighbour; it keeps the search invariant and the visited array in step with the visited set |
| `MateDwarfs.Dwarf.constructor` | Mate.cs:146-151 | the dwarf starts on the start with the given finish and strategy |
| `MateDwarfs.Dwarf.IsAtFinish` | Mate.cs:153-156 | true exactly when the position equals the finish |
| `MateDwarfs.Dwarf.Move` | Mate.cs:158-161 | the position becomes what the strategy returns, and the strategy's own state moves on as its `Move` says, so that the new state is `Next` of the old one |
| `MateDwarfs.Dwarf.Next` | Mate.cs:158-161 | the state after one move is again one of the strategy's kind; a wall follower stays put or lands on a free cell; a teleporter that moves lands on a free cell and remembers it; a path follower's cursor advances by one, or everything stays put once the path is used up |
| `MateDwarfs.Dwarf.NextStaysOnGrid` | Mate.cs:158-161 | a move keeps the dwarf on the grid; a wall follower or path follower stays put or steps to an adjacent passable cell; a teleporter lands on a passable cell |
| `MateDwarfs.Dwarf.PathFollowerFirstMoveStays` | Mate.cs:291-298 | a path follower's first move leaves it where it stands, because the first waypoint is the start |
| `MateDwarfs.Dwarf.PathFollowerArrives` | Mate.cs:291-298 | a path follower that has handed out every waypoint stands on the finish |
| `MateDwarfs.ToLower` | Mate.cs:346 | the lower-cased name is as long as the original and has no capital letters; each character is kept or, for a capital, replaced by its small letter |
| `MateDwarfs.LowerIsIdentity` | Mate.cs:346 | lower-casing a name without capital letters leaves it unchanged |
| `MateDwarfs.ToLowerIdempotent` | Mate.cs:346 | lower-casing twice gives the same as lower-casing once |
| `MateDwarfs.KindOf` | Mate.cs:346-357 | the selected kind is the one whose `case` label equals the lower-cased type name; no kind is selected when no label matches |
| `MateDwarfs.KindIgnoresCase` | Mate.cs:346-357 | the type name selects the same kind whatever the case of its letters |
| `MateDwarfs.DwarfFactory.CreateDwarf` | Mate.cs:344-359 | the lower-cased type selects a left or right wall follower, a teleporter with no previous target, or a path follower over a shortest path; an unknown type fails naming the type; "pathfollow" fails with no path exactly when the finish is unreachable; a built dwarf stands on the start |
| `MateRenderer.PaintCell` | Mate.cs:122-128 | the cell takes the symbol unless it is a wall; every other cell is unchanged |
| `MateRenderer.PaintKeepsWalls` | Mate.cs:124-127 | painting a symbol other than `#` neither creates nor removes a wall |
| `MateRenderer.MazeRenderer.constructor` | Mate.cs:111-115 | the original and the working grid are both copies of the given grid, which stays untouched |
| `MateRenderer.MazeRenderer.ResetToOriginal` | Mate.cs:117-120 | the working grid becomes the copy taken at construction |
| `MateRenderer.MazeRenderer.SetSymbol` | Mate.cs:122-128 | only cell (x, y) can change, and only when it is not a wall |
| `MateSimulation.Activated` | Mate.cs:400-406 | a dwarf is active after the tick exactly when it was active before or its start delay has passed |
| `MateSimulation.ActivationComposes` | Mate.cs:400-406 | activation is monotone: a tick at e1 followed by one at e2 >= e1 activates exactly what a tick at e2 does |
| `MateSimulation.AllReleasedAfterFifteenSeconds` | Mate.cs:368-374 | with the configured delays, every dwarf is active from 15000 ms on |
| `MateSimulation.ConfiguredKinds` | Mate.cs:368-374 | the configured names select, in order, the left and right wall followers, the path follower and the teleporter |
| `MateSimulation.ShownFlags` | Mate.cs:435 | a dwarf is drawn exactly when it is active and not at the finish |
| `MateSimulation.Overlay` | Mate.cs:432-438 | the original grid with the shown dwarfs' symbols painted in list order; it has the grid's dimensions, and `OverlayCell` says what each cell holds |
| `MateSimulation.OverlayCell` | Mate.cs:430-439 | in the redrawn grid a wall stays a wall; a cell with no shown dwarf keeps the original character; otherwise the cell shows the symbol of the last shown dwarf standing on it |
| `MateSimulation.OverlayKeepsWalls` | Mate.cs:433-438 | the redrawn grid has a wall exactly where the original grid does |
| `MateSimulation.Simulation.constructor` | Mate.cs:377-384 | the simulation holds the configured dwarfs, symbols, delays and renderer, no two dwarfs share an object, and it is valid |
| `MateSimulation.Simulation.Create` | Mate.cs:365-393 | set-up succeeds exactly when the finish is reachable; then it builds four new dwarfs on the start in the configured order, none active, with the start recorded as every previous position and the renderer holding a clean copy of the grid |
| `MateSimulation.Simulation.Assemble` | Mate.cs:377-387 | builds the dwarfs and records their positions, all equal to the start |
| `MateSimulation.Simulation.CreateConfiguredDwarf` | Mate.cs:377-379 | the factory call for one configured entry: the wall followers and the teleporter are always built, the path follower exactly when the finish is reachable |
| `MateSimulation.Simulation.CreateDwarfs` | Mate.cs:377-384 | builds the four dwarfs in list order; they are new, distinct, valid, on the start, and of the configured kinds; it fails with no path exactly when the finish is unreachable |
| `MateSimulation.Simulation.Activate` | Mate.cs:400-406 | the activation loop computes `Activated` for the elapsed time |
| `MateSimulation.Simulation.MoveOne` | Mate.cs:411-414 | a dwarf that is active and not at the finish makes one move; any other dwarf keeps its state |
| `MateSimulation.Simulation.MoveActive` | Mate.cs:409-415 | each dwarf makes one move exactly when it is active and not at the finish; the others keep position and strategy state |
| `MateSimulation.Simulation.PositionsChanged` | Mate.cs:418-427 | true exactly when some dwarf stands elsewhere than its recorded position |
| `MateSimulation.Simulation.Redraw` | Mate.cs:430-439 | the working grid becomes the original grid with the symbol of every active dwarf not at the finish painted in list order |
| `MateSimulation.Simulation.Advance` | Mate.cs:399-415 | the activation and movement phases of a tick |
| `MateSimulation.Simulation.Observe` | Mate.cs:417-465 | the change check, the conditional redraw, the new record of positions and the finish test; no dwarf moves |
| `MateSimulation.Simulation.Tick` | Mate.cs:395-472 | one loop pass: activation as `Activated`; exactly the active, unfinished dwarfs move; `positionsChanged` is true exactly when some position differs from the record; the grid is redrawn exactly then; the record becomes the new positions; `allFinished` is true exactly when every dwarf is at the finish |
| `MazeRender.IsSymbol` | Maze.js:104-107 | true exactly for the dwarf symbols L, R, T, P |
| `MazeRender.Rendered` | Maze.js:89-98 | the position's cell takes the symbol; the previous cell takes it only if it held `.` or a dwarf symbol; no other cell changes |
| `MazeRender.MazeRenderMap.constructor` | Maze.js:84-87 | original and working grid are copies of the given grid |
| `MazeRender.MazeRenderMap.Render` | Maze.js:89-98 | the working grid becomes `Rendered` of the old one |
| `MazeDwarfs.RandomPortDwarf.constructor` | Maze.js:238-241 | starts on the start, not teleported |
| `MazeDwarfs.RandomPortDwarf.Move` | Maze.js:243-253 | the first successful draw moves the dwarf to the finish and sets `teleported`, which is never reset; with no teleport the position is unchanged, so the position changes at most once and only to the finish |
| `MazeDwarfs.PathFollowingDwarf.WithPath` | Maze.js:258-262 | a dwarf on the start over a shortest path, cursor at 0 |
| `MazeDwarfs.PathFollowingDwarf.Create` | Maze.js:258-262 | construction succeeds exactly when the finish is reachable and otherwise fails with no path |
| `MazeDwarfs.PathFollowingDwarf.FindPath` | Maze.js:264-305 | succeeds exactly when the finish is reachable; the path is a shortest, repetition-free walk of 4-adjacent non-wall cells from start to finish; otherwise the error is no path |
| `MazeDwarfs.PathFollowingDwarf.VisitNeighbours` | Maze.js:287-302 | each free, unvisited neighbour of the path's end is marked visited and the extended path enqueued, keeping the search invariant |
| `MazeDwarfs.PathFollowingDwarf.Move` | Maze.js:306-314 | while waypoints remain the position becomes `path[currentStep]` and the cursor advances by one; afterwards nothing changes |
| `MazeDwarfs.PathFollowingDwarf.ReplayEndsAtFinish` | Maze.js:306-314 | once every waypoint has been replayed the dwarf is at the finish |
| `MazeTurnDwarfs.IsValidMove` | Maze.js:170-180 | true exactly when the cell is on the grid, not a wall and not visited |
| `MazeTurnDwarfs.RotateIsMod` | Maze.js:158 | the turn step is `(c + turn) % 4` |
| `MazeTurnDwarfs.Backtrack` | Maze.js:161-166 | popping the stack: pushing the new position back gives the old stack, an empty stack changes nothing, and the visited set and direction are kept |
| `MazeTurnDwarfs.TryFrom` | Maze.js:145-166 | the rest of a move after some failed tries: the visited set only grows, and when it grows the dwarf entered a fresh passable cell, added it and pushed its old position |
| `MazeTurnDwarfs.TurnMove` | Maze.js:144-167 | one `move()`: the visited set only grows, and grows exactly by a fresh passable cell the dwarf entered, pushing its old position (the same function models `RightTurnDwarf.move`, Maze.js:198-222) |
| `MazeTurnDwarfs.TryEnters` | Maze.js:150-156 | a try whose faced cell can be entered moves there, adds it to the visited set and pushes the old position |
| `MazeTurnDwarfs.TryTurns` | Maze.js:158 | a try whose faced cell cannot be entered turns the dwarf and goes on with the next try |
| `MazeTurnDwarfs.TryFromOutcome` | Maze.js:145-166 | the tries from a given one on either enter an adjacent fresh cell or, with every remaining try blocked, back off with the direction turned full circle |
| `MazeTurnDwarfs.FullTurn` | Maze.js:145-159 | four turns bring either dwarf back to the direction it faced, which stays in 0..3 |
| `MazeTurnDwarfs.FourTriesCoverAll` | Maze.js:133-158 | the four tries of a move face all four directions |
| `MazeTurnDwarfs.TriedAllMeansBlocked` | Maze.js:145-166 | when all four tries fail, every neighbour is off the grid, a wall or visited |
| `MazeTurnDwarfs.TurnMoveOutcome` | Maze.js:144-167 | a move either enters an adjacent, passable, unvisited cell (visited grows by that cell, the stack by the old position), or, only when every neighbour is blocked, keeps the direction and pops the stack into the position (nothing changes on an empty stack); visited only grows |
| `MazeTurnDwarfs.MirroredIndex` | Maze.js:133-138 | index c of the left-turn table and index -c (mod 4) of the right-turn table name the same direction |
| `MazeTurnDwarfs.TryFromCorresponds` | Maze.js:145-159 | from corresponding states, the remaining tries of the two dwarfs end in corresponding states |
| `MazeTurnDwarfs.LeftRightMoveAlike` | Maze.js:198-222 | one move of each dwarf from corresponding states ends in corresponding states: same position, visited set and stack |
| `MazeTurnDwarfs.MovesAlike` | Maze.js:144-167 | any number of moves keeps the two dwarfs corresponding |
| `MazeTurnDwarfs.LeftRightWalkAlike` | Maze.js:130-233 | started on the same cell, the two dwarfs stand on the same cell, with the same visited set and stack, after any number of moves |
| `MazeTurnDwarfs.LeftTurnDwarf.constructor` | Maze.js:131-142 | starts on the start, facing up, with the start visited and on the stack |
| `MazeTurnDwarfs.LeftTurnDwarf.Move` | Maze.js:144-167 | the new state is one `TurnMove` over [up, left, down, right] turning by +3 |
| `MazeTurnDwarfs.RightTurnDwarf.constructor` | Maze.js:185-196 | starts on the start, facing up, with the start visited and on the stack |
| `MazeTurnDwarfs.RightTurnDwarf.Move` | Maze.js:198-222 | the new state is one `TurnMove` over [up, right, down, left] turning by +1 |

## Left out

- Reading the maze file (`ReadMazeFile`, `readMazeFile`) is left out: file I/O and whitespace trimming. The grid arrives as a parsed `seq<seq<char>>`.
- All console output and console handling are left out as terminal I/O: `EnsureConsoleSize`, `ensureConsoleSize`, `PauseUntilKeyPress`, `pauseUntilKeyPress`, `MazeRenderer.PrintMaze`, the console output inside `render`, `logPosition`, the status lines of `SimulateDwarfs`, the error printing of both validators, and the messages printed by the movement code (Mate.cs:244; Maze.js:165, 220, 247, 249, 251, 312).
- Timing is left out. That covers `Task.Delay`, `setTimeout` and `DateTime.Now`; the elapsed time is a parameter of `Tick`.
- The outer `while (!allFinished)` loop of `SimulateDwarfs` is not modelled, because it may never end. One pass of its body is `Tick`.
- The JavaScript `simulateDwarfs` is not modelled: it is a scheduling loop that runs each dwarf's moves and renders until the dwarf arrives. Its parts, `move` and `render`, are modelled.
- `Main` and `main` only sequence the parts above and are not modelled.
- Randomness is not modelled as a distribution. The C# draw is an arbitrary caller-chosen index sequence `roll`; the JavaScript 10% chance is an arbitrary boolean.
- Cells and symbols are `char`. The source holds one-character strings; `SetSymbol` receives `Symbol.ToString()`.
- `Point` is a value. The C# `Point` is a mutable class, but no code mutates a shared `Point`.
- `MateDwarfs.ToLower` lower-cases only ASCII letters, not the full culture-sensitive `ToLower`. The configured type names are plain ASCII.
- `MazeSetup.ValidateMaze` returns a single `UnevenRows` error instead of printing every bad row before throwing.
- The strategies, dwarfs and factory require a rectangular grid and an in-bounds start. `ValidateMaze` and `FindStartAndFinish` guarantee both before any of them is built.
- The JavaScript `visited` set that the base `Dwarf` creates is kept only by the turning dwarfs. The other dwarfs never read it.
- The JavaScript dwarfs' `isAtFinish` is the shared `Grid.AtFinish`.
- The model does not capture aliasing between the C# `Dwarf` and its strategy beyond their being distinct objects. No object is shared between two dwarfs.
