# Battle Tanks simulation core in Dafny

This project models the simulation core of a small Bevy tank game (`src/main.rs`). It covers:

- **The maze.** `MAZE` is a fixed grid of characters. `build_maze` checks that the grid is
  rectangular. It then turns every `#` into a wall tile, collects the `S` cells as enemy
  spawn points, and takes the last `P` as the player start.
- **Collision.** This includes the inclusive AABB overlap test `aabb_overlap`, the wall scan
  `overlaps_any`, the six-sub-step sweep `sweep_axis`, and the per-axis mover update of
  `move_with_collisions`.
- **Combat.** `bullet_hits` despawns each bullet together with the first enemy it overlaps.
  `bullet_wall_cull` despawns every bullet that overlaps a wall.
- **The spawner.** `enemy_spawner` has three guards and a round-robin cursor over the spawn
  points.
- **The arena clamp.** `clamp_to_arena` keeps the player, enemies and bullets inside the arena.

Positions, velocities and sizes are exact `real`s. Entities are values (`Mover` for the
player, enemies and bullets; `Box` for walls). The game state is the class `Game.World`:

- the wall list and spawn points are fixed at startup, so they are `const` fields;
- the player, the enemy and bullet sequences and the spawn cursor are fields;
- each Update system is one method.

Module layout:

| file | module | what it holds |
|---|---|---|
| `geometry.dfy` | `Geometry` | vectors and boxes; `aabb_overlap` |
| `collision.dfy` | `Collision` | `overlaps_any`, `sweep_axis`, `move_with_collisions` per mover |
| `maze.dfy` | `Maze` | `MAZE`; `build_maze` |
| `combat.dfy` | `Combat` | `bullet_hits`, `bullet_wall_cull` |
| `spawner.dfy` | `Spawner` | the spawn guards and the round-robin cursor |
| `arena.dfy` | `Arena` | `clamp_to_arena` |
| `world.dfy` | `Game` | the world state and one method per system |
| `config.dfy` | `Config` | the game's constants |
| `wrappers.dfy` | `Wrappers` | `Option` and `Result` |

Notes on the code:

- **Row `"#P  S#"`.** The `S` sits at column 4 (0-based), and `Maze.SampleRow` proves it.
- **Deferred despawn.** `bullet_hits` despawns through Bevy `Commands`, which take effect only
  after the pass. So every bullet is tested against all enemies present when the pass began. Two
  bullets may pick the same enemy; both bullets go, and the enemy goes once. The model makes
  every decision against that snapshot and then removes the picked entities with a keep-mask
  (`Combat.Select`).
- **No other combat.** The game has no enemy fire, player death, restart or bullet look-ahead,
  and the model has none.
- **Empty grid.** `build_maze` over an empty grid would panic on `MAZE[0]`. `Maze.BuildMaze`
  returns `Failure(NoRows)` for it. A row of the wrong width gives `Failure(RowWidth(...))`,
  which names the first such row, as the assertion message does (widths counted as described
  under "## Left out").

## Model

| member | source | states |
|---|---|---|
| Geometry.OverlapSymmetric | src/main.rs:347-351 | aabb_overlap (Geometry.AabbOverlap) gives the same answer with its two boxes swapped |
| Geometry.TouchingOverlaps | src/main.rs:348-351 | boxes whose centre distance equals the sum of half-extents on both axes count as overlapping (the test is inclusive) |
| Geometry.OverlapIffCommonPoint | src/main.rs:348-351 | for non-negative extents, aabb_overlap holds exactly when the two closed rectangles share a point |
| Collision.HitsWallIffSome | src/main.rs:353-360 | the wall predicate holds exactly when some wall of the list overlaps the box |
| Collision.OverlapsAny | src/main.rs:353-360 | the scan with early return yields true exactly when some wall overlaps the box |
| Collision.ClearSteps | src/main.rs:376-390 | the number of sub-steps the sweep keeps lies between those already known clear and 6 |
| Collision.ClearStepsStopsAtWall | src/main.rs:376-390 | every sub-step the sweep keeps is clear of all walls; if it stops early, the next sub-step overlaps a wall |
| Collision.TravelWhole | src/main.rs:372-373 | six sub-steps of delta/6 add up to the whole attempted move |
| Collision.TravelIsProduct | src/main.rs:374-389 | adding step to moved k times gives k*step |
| Collision.SweepIsWholeSubSteps | src/main.rs:371-391 | for a non-zero delta the sweep lands exactly on pos + k*(delta/6), where k (0 <= k <= 6) is the number of clear sub-steps |
| Collision.SweepKeepsClearSubSteps | src/main.rs:376-390 | each position pos + j*step for 1 <= j <= k overlaps no wall; if k < 6, position k+1 overlaps a wall |
| Collision.SweepDistance | src/main.rs:364-392 | the sweep returns 0 for delta == 0; it never moves further than delta, and never against its sign |
| Collision.SweepAxis | src/main.rs:364-392 | the sub-step loop with its break returns exactly the sweep distance |
| Collision.MoveAxis | src/main.rs:257-262 | an axis phase leaves the other coordinate alone; if the full move overlaps no wall, it lands exactly at old + d |
| Collision.MoveAxisWithinMove | src/main.rs:257-262 | an axis phase covers part of d, with the sign of d |
| Collision.MoveAxisKeepsClear | src/main.rs:257-269 | a mover clear of all walls before an axis phase is clear after it |
| Collision.TwoPhaseAxes | src/main.rs:253-273 | the X phase decides x and the Y phase (which receives that x) decides y; an axis whose full move is clear gets exactly old + v*dt |
| Collision.MovedWithoutWalls | src/main.rs:253-273 | with no walls every mover (Collision.Moved, the mover after one move_with_collisions step) moves by exactly v*dt, and its velocity and size are kept |
| Collision.MovedKeepsClear | src/main.rs:253-273 | a mover clear of all walls stays clear of all walls after moving |
| Collision.MovePhase | src/main.rs:257-262 | full move, wall test, undo and sweep compute the axis phase |
| Collision.MoveBothAxes | src/main.rs:257-269 | the X phase and then the Y phase from where X ended compute the two-phase move |
| Collision.MoveMover | src/main.rs:253-273 | the per-mover body of move_with_collisions computes the moved mover Collision.Moved |
| Collision.MoveEach | src/main.rs:253-273 | the loop over a group of movers updates each one in place to its moved value |
| Maze.BuildMaze | src/main.rs:112-156 | succeeds exactly for a non-empty rectangular grid, and then returns the scanned layout; otherwise it fails, naming the first row whose width differs from row 0 (NoRows for an empty grid) |
| Maze.CellsOfMember | src/main.rs:129-150 | the scan lists exactly the cells of the grid that hold the marker |
| Maze.CellsOfSorted | src/main.rs:129-130 | the scan lists cells in strictly increasing row-major order |
| Maze.CellsOfCount | src/main.rs:129-150 | the scan lists one cell per occurrence of the marker |
| Maze.LayoutCounts | src/main.rs:127-147 | one wall per '#' character, one spawn point per 'S' character |
| Maze.WallsMatchMarkers | src/main.rs:127-146 | every '#' cell gets a TILE-sized wall centred at origin + (c*TILE, -r*TILE), and every wall is such a tile |
| Maze.SpawnPointsInScanOrder | src/main.rs:129-147 | spawn point i is the centre of the i-th 'S' cell in row-major order |
| Maze.PlayerStartIsLastMarker | src/main.rs:148 | the player start is the centre of the last 'P' in row-major order |
| Maze.PlayerStartFallback | src/main.rs:125 | without a 'P' the player start is (0, -ARENA_H*0.35) |
| Maze.MazeIsRectangular | src/main.rs:55-71 | the game's MAZE has 15 rows of 20 characters, so it passes the width check |
| Maze.SampleRow | src/main.rs:129-150 | the row "#P  S#" gives walls at columns 0 and 5, a spawn point at column 4 and the player at column 1 |
| Combat.FirstHitFrom | src/main.rs:297-303 | the enemy picked from index j on is an index of the enemy list at or after j |
| Combat.FirstHitFromIsFirst | src/main.rs:297-303 | from index j on, the picked enemy overlaps the bullet and no enemy before it does; nothing is picked exactly when none overlaps |
| Combat.FirstHitIsFirst | src/main.rs:297-303 | a bullet picks the first enemy in iteration order that it overlaps, and picks none exactly when it overlaps none |
| Combat.Target | src/main.rs:297-303 | a bullet picks at most one enemy |
| Combat.FindFirstHit | src/main.rs:297-303 | the inner loop with its break returns the first overlapping enemy |
| Combat.ResolveHits | src/main.rs:293-304 | the outer loop computes which bullets survive and which enemies are picked |
| Combat.KilledMember | src/main.rs:293-304 | an enemy is despawned exactly when it is the first overlapping enemy of some bullet |
| Combat.KilledBound | src/main.rs:293-304 | only existing enemies are despawned, and no more of them than the bullets that hit |
| Combat.AtMostOneKillPerBullet | src/main.rs:293-304 | a pass removes no more enemies than bullets |
| Combat.BulletSurvivesIffNoHit | src/main.rs:297-301 | a bullet survives bullet_hits exactly when it overlaps no enemy |
| Combat.WallCullExact | src/main.rs:281-285 | after bullet_wall_cull no bullet overlaps a wall, and every bullet that overlapped none is still there |
| Spawner.NextSpawn | src/main.rs:328-343 | the spawn uses points[next] for an in-range cursor; the cursor advances by one and wraps to 0 after the last point |
| Spawner.SpawnRunCycles | src/main.rs:328-343 | the i-th of consecutive spawns uses the point i places after the cursor, wrapping around the list |
| Spawner.SpawnRunFromStart | src/main.rs:328-343 | from the initial cursor 0, spawns cycle p0, p1, ..., p(len-1), p0, ... |
| Spawner.SpawnRunPeriodic | src/main.rs:328-343 | the sequence of spawn positions repeats with period len |
| Arena.Clamp | src/main.rs:311-312 | the clamped value lies in [lo, hi] and equals v when v is already inside |
| Arena.ClampIsNearest | src/main.rs:311-312 | the clamped value is the point of the range nearest to v |
| Arena.ClampPosition | src/main.rs:307-314 | a clamped position is inside the arena, and an in-arena position is unchanged |
| Arena.ClampIdempotent | src/main.rs:307-314 | clamping twice is clamping once |
| Arena.ClampMover | src/main.rs:310-313 | only the translation changes, into the arena; a mover already inside is unchanged |
| Arena.ClampedAll | src/main.rs:310-313 | every clamped mover of a group is inside the arena |
| Arena.ClampEach | src/main.rs:310-313 | the loop over a group clamps each mover in place |
| Game.World.constructor | src/main.rs:154-170 | startup installs the given layout's walls and spawn points (for the game, Layout(MAZE)) with cursor 0, and a stationary player at the start position; there are no enemies or bullets |
| Game.World.HandleFire | src/main.rs:202-231 | a fresh press with the cooldown finished and a non-zero facing appends one bullet (Game.NewBullet), 0.6 player widths ahead, flying at BULLET_SPEED; otherwise nothing changes |
| Game.World.MoveWithCollisions | src/main.rs:246-274 | the player, every enemy and every bullet take their two-phase move; the walls stay as they were |
| Game.World.BulletHits | src/main.rs:288-305 | exactly the bullets that overlap an enemy are removed, with exactly the enemies they pick; the order of the rest is kept |
| Game.World.BulletWallCull | src/main.rs:276-286 | exactly the bullets that overlap a wall are removed, and the order of the rest is kept |
| Game.World.EnemySpawner | src/main.rs:316-344 | if the timer is unfinished, the enemy cap is reached or there are no spawn points (Spawner.SpawnAllowed fails), nothing changes; otherwise one stationary ENEMY_SIZE enemy (Game.NewEnemy) appears at points[next % len] and next becomes (next+1) % len; the cap is kept |
| Game.World.ClampToArena | src/main.rs:307-314 | the player, every enemy and every bullet are put inside the arena, and nothing else about them changes |

## Left out

- Bevy app construction, window, camera, sprites and colours (`main`, `setup_camera`, sprite bundles): engine and rendering glue.
- `player_input`: keyboard polling and rotation from `atan2`, which are input I/O and trigonometry.
- `enemy_ai_seek_player`: its velocity needs `normalize`, which takes a square root.
- Maze.BuildMaze: row widths are counted in characters, whereas the width check of `build_maze` uses `str::len`, the UTF-8 byte length; the two agree on ASCII grids such as `MAZE`, but a grid with non-ASCII characters can pass one check and fail the other.
- Game.World.HandleFire: the facing direction (rotation applied to the X axis) is a parameter, and the cooldown timer is a boolean "finished" input. The timer tick and `cooldown.reset()` after a shot are not modelled.
- Game.World.EnemySpawner: the spawn timer is a boolean "finished" input; its tick is not modelled.
- IEEE-754 `f32` rounding: all arithmetic is exact, including `delta / 6` and the accumulated `moved` of `sweep_axis`.
- `f32::clamp` with a NaN argument: reals have no NaN.
- The order in which systems run within a frame. The Update tuple is not chained, so Bevy does not guarantee it. Each system is a separate method, and no frame-level sequence is fixed.
- Query iteration order is taken to be the order of the entity sequences.
- The game always has exactly one player. The `get_single` failure paths (no player or several) are not modelled.
- Entity identities and z-depths of transforms: entities are values in sequences, and only x and y are kept.
