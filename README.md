# mafia-man gameplay core in Dafny

A model of the gameplay core of the mafia-man tile-maze game. The player walks a
character grid ('#' wall, '.' coin, ' ' floor, 'E' exit). Each coin picked up
scores ten points. The exit opens once no coin is left, and stepping onto the
open exit wins. The pursuer spawns on the cell farthest from a target and
moves one cell per time step along a shortest walk that it finds by
breadth-first search.

Four modules model one source file each, in that file's own form. `Geometry` holds the positions and facings they all use, and `Paths` holds the specification and proof of the pursuer's search for `Pursuer`:

| module | file | models |
|---|---|---|
| `Geometry` | `geometry.dfy` | Helpers used by all the other modules: grid positions, Manhattan distance, row-major order, the four facings and the facing chosen by a move |
| `Maze` | `maze.dfy` | `src/level.js`. The `Level` class holds the grid, the coin registry (a set of positions standing in for the mesh map), `coinCount` and the exit lock. It also covers the cell scan of both builds, coin collection and the walkability and exit predicates |
| `Movement` | `player.dfy` | `src/player.js`: the `Player` class, its guarded single-cell move, and what any sequence of moves keeps |
| `Paths` | `paths.dfy` | The specification of the pursuer's search: walks, reachability, shortest distance and next step. It also holds the search's loop invariant and the lemmas that turn it into the search's promises |
| `Pursuer` | `enemy.dfy` | `src/enemy.js`: the `Enemy` class, with the spawn scan, the breadth-first search with its backtrack, turning, the step and the time-step accumulator |
| `Session` | `game.dfy` | `src/game.js`: the template and its spawn scan, plus the `Game` class. The class covers the move rule (pickup, unlock, win), reset, start, back-to-menu and the mode toggle, all under a session invariant |

The `Game` invariant (`Game.Valid`) holds in every state of a running session:

- the registry holds exactly the coin cells still on the grid;
- the score is ten points per coin collected since the last reset;
- the exit is open only when no coin is left;
- the player stands on a walkable cell;
- a won game has the player on the exit.

`Session.WinMeansFullScore` draws the consequence: a win means every coin was
collected.

The grid is a sequence of rows, and the rows may differ in length, as they can
in the source. Column bounds follow the source exactly:

- `inBounds` measures columns against row 0;
- a cell lookup outside its own row yields no character, and such a cell is
  therefore not a wall.

## Model

| member | source | states |
|---|---|---|
| `Geometry.FacingFor` | src/player.js:186-189 | A unit move turns the body to face along that move (up North, down South, left West, right East). Any other delta keeps the current facing |
| `Geometry.FacingForDelta` | src/enemy.js:176-181 | Facing and delta are inverses: turning along a facing's own delta gives back that facing |
| `Geometry.UnitDeltaIsAdjacent` | src/player.js:181-182 | A unit move changes the position by Manhattan distance exactly one |
| `Maze.InBounds` | src/level.js:204-206 | The bounds test: the row is a row of the grid and the column lies within the length of row 0, whatever the row's own length |
| `Maze.IsWalkable` | src/level.js:208-211 | A cell is walkable when it is in bounds and its character, if the row has one there, is not '#'. `WalkableOnRectangle` and `ShortRowGapIsWalkable` state what this means on rectangular and ragged grids |
| `Maze.WalkableOnRectangle` | src/level.js:204-211 | On a rectangular grid a cell is walkable exactly when it exists and does not hold '#' |
| `Maze.ShortRowGapIsWalkable` | src/level.js:204-211 | On a ragged grid a column past the end of a short row, but inside row 0's width, is walkable even though no cell is there: the missing cell is not '#' |
| `Maze.IsExitTile` | src/level.js:243-245 | A cell is the exit when the grid holds 'E' there; a cell that does not exist is never the exit |
| `Maze.ExitTileIsWalkable` | src/level.js:243-245 | On a rectangular grid an exit tile is in bounds and walkable, whatever the lock state |
| `Maze.ClearCell` | src/level.js:229 | Picking up a coin turns exactly that cell into floor and changes no other cell and no row length |
| `Maze.ClearCellCoins` | src/level.js:229 | Clearing a coin cell removes exactly that position from the grid's coin cells |
| `Maze.ClearCellKeepsTerrain` | src/level.js:229 | Clearing a coin changes no cell's walkability and no exit tile: '.' only ever becomes ' ' |
| `Maze.Level.constructor` | src/level.js:7-32 | A new level holds the given grid with an empty registry, a count of 0 and the exit locked |
| `Maze.Level.RegisterCells` | src/level.js:71-115 | The build's cell scan registers exactly the grid's coin cells, sets the count to their number, and reports whether the grid holds an exit |
| `Maze.Level.ScanRow` | src/level.js:72-114 | Scanning one row extends the registered coins and the exit flag from all cells before the row to all cells up to its end |
| `Maze.Level.BuildPrototype` | src/level.js:53-116 | The prototype build registers every coin cell and locks the exit when the grid has an 'E' cell. A grid with no exit keeps the old lock state |
| `Maze.Level.BuildFull` | src/level.js:120-202 | The full build registers every coin cell and restores the lock state it found |
| `Maze.Level.Rebuild` | src/level.js:281-284 | A rebuild runs the full build or the prototype build, with the lock outcome of whichever ran |
| `Maze.Level.CollectCoinAt` | src/level.js:219-232 | No registered coin at the cell: returns false and changes nothing. Otherwise: returns true, unregisters the position, decrements the count and turns the cell into floor. The position is unregistered afterwards, so a second call returns false. Registry equal to the coin cells and count equal to registry size are preserved, and so is the walkability and exit status of every cell |
| `Maze.Level.SetExitUnlocked` | src/level.js:234-241 | The lock state becomes exactly the argument; nothing else changes |
| `Movement.MoveTarget` | src/player.js:180-183 | A move lands on the target when it is walkable and leaves the body where it was otherwise |
| `Movement.FollowMovesStaysWalkable` | src/player.js:183 | A player starting on a walkable cell is on a walkable cell after any sequence of moves |
| `Movement.FollowMovesIsBounded` | src/player.js:181-182 | A sequence of n unit moves carries the player at most Manhattan distance n |
| `Movement.Player.constructor` | src/player.js:5-20 | A new player is at (0, 0), facing South (rotation 0), not walking, with no walk time |
| `Movement.Player.SetGridPos` | src/player.js:167-169 | The grid position becomes exactly (r, c) |
| `Movement.Player.TryMove` | src/player.js:180-199 | A move into a wall or out of bounds returns false and leaves position, facing and walk state unchanged. A move into a walkable cell returns true, moves the player there, turns it along the move and starts a 0.18 s walk burst. A walkable start stays walkable, and a unit move lands on an adjacent cell |
| `Paths.NeighborsAreAdjacent` | src/enemy.js:134-139 | The four expansion directions reach exactly the four edge neighbours of a cell |
| `Paths.DistanceUnique` | src/enemy.js:142-157 | The shortest-walk distance between two cells is unique |
| `Paths.NextStepIsLocal` | src/enemy.js:161-168 | A next step moves at most one cell, and the target is still reachable from it |
| `Paths.UnwalkableTargetUnreachable` | src/enemy.js:148-151 | A target that is a wall or out of bounds, and is not the start itself, cannot be reached |
| `Paths.ExhaustedUnreachable` | src/enemy.js:142-159 | If the queue runs dry without dequeuing the target, the target is unreachable |
| `Paths.DequeuedIsShortest` | src/enemy.js:142-147 | Once the target reaches the queue front, no walk to it is shorter than its recorded distance. This follows from FIFO order and the test at dequeue time |
| `Paths.NextStepMeansReachable` | src/enemy.js:159-168 | A target for which a correct next step exists is reachable |
| `Paths.FreshNeighborsExactly` | src/enemy.js:148-156 | The cells one expansion enqueues are exactly the walkable 4-neighbours of the dequeued cell that were not yet discovered |
| `Paths.ExpandNeighbors` | src/enemy.js:148-156 | Expanding the dequeued cell appends to the queue exactly its walkable, undiscovered neighbours in the order up, down, left, right, and gives each of them the dequeued cell as parent. Nothing else is discovered and every earlier parent link is kept. It restores the search invariant, and either discovers a new cell or changes nothing |
| `Pursuer.FarthestFirstUnique` | src/enemy.js:112 | Because the comparison is strict, at most one cell is the first candidate of greatest distance |
| `Pursuer.FarthestCandidate` | src/enemy.js:103-118 | The scan returns a walkable, non-exit cell at the greatest Manhattan distance from the target. Every candidate before it in row-major order is strictly nearer. With no candidate it returns (1, 1) |
| `Pursuer.ScanRowForSpawn` | src/enemy.js:106-116 | Scanning one row keeps the first farthest candidate over all cells up to the row's end |
| `Pursuer.Enemy.constructor` | src/enemy.js:5-15 | A new pursuer is at (0, 0), facing South, with the given step interval (0.45 s by default), nothing accumulated and not paused |
| `Pursuer.Enemy.SetGridPos` | src/enemy.js:94-99 | The grid position becomes exactly (r, c) |
| `Pursuer.Enemy.PickSpawnFarFrom` | src/enemy.js:102-119 | The spawn is the first walkable, non-exit cell of the level at greatest Manhattan distance from (tr, tc), or (1, 1) when there is none |
| `Pursuer.Enemy.NextStepToward` | src/enemy.js:122-169 | Breadth-first search returns nothing exactly when the target is unreachable. Otherwise it returns a correct next step: the pursuer's own cell when it already stands on the target, else a walkable neighbour one step nearer along a shortest walk |
| `Pursuer.Enemy.Backtrack` | src/enemy.js:161-168 | Following parent links back from the target ends at the cell whose parent is the start, and that cell is a correct next step |
| `Pursuer.Enemy.FaceToward` | src/enemy.js:171-183 | The pursuer turns along (nr - r, nc - c) when that is a unit move and keeps its facing otherwise |
| `Pursuer.Enemy.Step` | src/enemy.js:185-196 | If the target is reachable, the pursuer turns toward and moves into a correct next step and starts a 0.18 s walk burst. Otherwise position, facing and walk timer are unchanged |
| `Pursuer.Enemy.SetPaused` | src/enemy.js:198-200 | The paused flag becomes exactly the argument |
| `Pursuer.Enemy.TimeStep` | src/enemy.js:202-212 | Paused: nothing changes. Otherwise dt is added to the accumulator. Below the interval, nothing else moves. At or past the interval, the accumulator resets to 0 and exactly one step is taken, which moves at most one cell and lands on a correct next step exactly when the target is reachable. On a reachable target the pursuer turns along its move and its walk timer is the new 0.18 s burst less dt; otherwise position and facing are kept and the walk timer runs down as below. The accumulator then stays below a positive interval, and the walk timer runs down by dt while positive |
| `Session.LastSpawnUnique` | src/game.js:196-204 | At most one spawn mark is the last in row-major order |
| `Session.SpawnFree` | src/game.js:191-204 | The freed grid has the template's shape, with every 'P' turned into ' ' and every other cell kept |
| `Session.SpawnFreeKeepsTerrain` | src/game.js:201 | Freeing the spawn keeps walkability, exit tiles and coin cells everywhere, and leaves no spawn mark |
| `Session.FreeSpawn` | src/game.js:191-204 | The template scan returns the freed grid and the last spawn mark in row-major order, or (0, 0) when there is none |
| `Session.FreeSpawnInRow` | src/game.js:197-203 | Scanning one row extends the freed prefix and the last spawn found to the row's end |
| `Session.TemplateSpawn` | src/game.js:25-35 | The game's template has its last (and only) spawn mark at (1, 1) |
| `Session.TemplateShape` | src/game.js:25-35 | The freed template is a 9 by 21 rectangle with an exit, on which (1, 1) is walkable floor and not the exit |
| `Session.MazeTemplateIsProper` | src/game.js:25-35 | The game's template is proper: its only spawn is at (1, 1), and that cell is walkable once freed |
| `Session.ProperTemplateSpawn` | src/game.js:196-211 | On a proper template the spawn scan places the player at (1, 1), on a walkable cell |
| `Session.Game.LevelStateFromTemplate` | src/game.js:189-212 | Builds a fresh level over the freed template, with an empty registry, count 0 and exit locked. Builds a fresh player bound to it, standing on the last spawn mark or at (0, 0) |
| `Session.Game.constructor` | src/game.js:17-37 | A new session is in the menu, with a newly created level and player: not started, not won, score 0, prototype mode. Its level lies over the freed template with nothing registered yet: no coins, count 0, exit locked. The player is at (1, 1), facing South, not walking, with walk timer 0. The invariant holds |
| `Session.Game.MovePlayer` | src/game.js:150-181 | Does nothing and returns false when not started, already won, or when the target is not walkable. Otherwise it returns true, moves the player, turns it along the move and starts its walk burst. A coin on the new cell is unregistered, turned into floor on the grid and scores exactly 10; every other cell of the grid is kept, no cell's walkability changes, and a failed move changes neither the level nor the player. The exit is open exactly when it was or no coin is left, so it is never re-locked. The game is won exactly when the exit is open and the player is on it. The score never drops, and the invariant is kept |
| `Session.Game.StepPlayer` | src/game.js:154-155 | The player's half of a move keeps the invariant. It moves and turns the player exactly when the target is walkable, and changes nothing otherwise |
| `Session.Game.SettleMove` | src/game.js:158-180 | After a successful step: the coin under the player, if any, is unregistered, turned into floor and scores 10; then the exit opens once no coin is left; then standing on the open exit wins. The invariant is kept |
| `Session.Game.CollectUnderPlayer` | src/game.js:158-165 | The coin under the player, if any, is unregistered, its cell becomes floor and it scores exactly 10 points. No other cell changes, and the invariant is kept |
| `Session.Game.UnlockAndCheckWin` | src/game.js:166-178 | The exit opens once no coin is left. Standing on the open exit wins, and a locked exit does not |
| `Session.Game.ResetGame` | src/game.js:214-245 | Clears the win and zeroes the score. Builds a fresh level and player from the unchanged template, in the chosen mode, with every coin registered. Locks the exit and places the player at (1, 1), facing South, not walking, with walk timer 0. Every reset therefore gives the same grid, coin count and lock state, whatever was collected before |
| `Session.Game.StartPrototype` | src/game.js:183-187 | Starting the prototype resets the game: no win, score 0, the chosen mode, the freed template as grid with every coin registered and counted as the total, the exit locked, and the player at (1, 1), facing South, not walking, with walk timer 0 |
| `Session.Game.Start` | src/game.js:132-146 | The start button marks the session started and resets the game: no win, score 0, the chosen mode, the freed template as grid with every coin registered and counted as the total, the exit locked, and the player at (1, 1), facing South, not walking, with walk timer 0 |
| `Session.Game.BackToMenu` | src/game.js:65-78 | Back to the menu: the win is cleared, the session stops and the invariant is kept |
| `Session.Game.ToggleMode` | src/game.js:118-127 | The mode toggle rebuilds the level over its current grid. It re-registers exactly the coins still on it and keeps their count in a running game. The exit keeps its lock only if it was locked, or if the full build ran, or if the grid has no exit |
| `Session.WinMeansFullScore` | src/game.js:171-178 | In a running, won game every coin has been collected, and the score is ten points per coin of the level |

## Left out

- Rendering is left out: three.js meshes, materials, textures, GLTF loading, scene groups, and `gridToWorld` with its world coordinates. These are presentation in a foreign library.
- Animation is left out: `Level.timeStep`, `Player.timeStep`, the walk phase, bob and arm swing. It is floating-point trigonometry with no gameplay effect. Only the walk-burst flags and timers that moves set are kept, plus the pursuer's walk-timer run-down.
- Facing is an enum of four values instead of a rotation in radians. Time (`dt`, the step interval, the walk timers) is `real`, with no floating-point rounding.
- The engine, the UI text and overlays, and the bootstrap are not part of this model. The key listeners, the hold buttons with their 160 ms repeat and the camera placement are left out.
- Each handler is modelled as one atomic step, and the source does not guarantee that. In full mode `buildFull` empties the coin registry and zeroes `coinCount` (src/level.js:127-128), then awaits the coin model (src/level.js:156) while the grid still holds its coins. That await is reached from the mode toggle (src/game.js:119-121) and from every reset (src/game.js:233, behind src/game.js:142-144, where `started` is already true). A key press in that window runs `movePlayer` (src/game.js:150-181): it finds no registered coin, sees a count of 0 and opens the exit, so the player can win without collecting. `Game.Valid` and `Session.WinMeansFullScore` hold only for the atomic interleaving the model assumes. The prototype build has no such window, because it does not wait.
- The difficulty selection is left out, because it changes no gameplay state in these files.
- `Game`'s own `grid` field is left out. It is an alias of the level's grid, which the model keeps only on the level.
- `score` and `_won` are undefined in the source until the first reset, and the constructor models them as 0 and false. For `_won` that is what it reads as, since undefined is falsy. For `score` it is not: undefined plus 10 is NaN. It makes no difference, because a move reads `score` only in a started session, and the start handler sets `started` (src/game.js:142) and then reaches `resetGame`, which zeroes `score` (src/game.js:220) before its first wait.
- The pursuer's target callback becomes the parameters (tr, tc). `Enemy` is not wired into the session in the source, so it stands alone here.
- Pursuer.Enemy.NextStepToward: the contract allows any correct next step. It does not pin down which one the fixed order up, down, left, right picks when several shortest walks exist.
- Pursuer.Enemy.NextStepToward: requires the pursuer's row to be a row of the grid. The source indexes its parent matrix there and fails otherwise.
- Pursuer.Enemy.Step: requires the pursuer's row to be a row of the grid, because it runs the same search.
- Pursuer.Enemy.TimeStep: requires the pursuer's row to be a row of the grid only when the call takes a step.
- Pursuer.Enemy.Step: the pursuer moves to a correct next step, but the contract does not pin down which one the search's fixed order up, down, left, right picks when several shortest walks exist.
- Pursuer.Enemy.TimeStep: the step it takes has the same freedom: any correct next step, not the one the fixed search order picks.
- Session.TemplateShape: does not state how many coins the template holds. The template has 80 coin cells; every contract is stated in terms of `CoinCells` of the freed template instead of that number.
- The breadth-first search's parent matrix is modelled as a map keyed by position, and its queue as a sequence. Aliasing between the `{r, c}` objects of the source plays no part.
