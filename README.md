# Enemy combat state of the 3D shooter demo

This project models the combat logic of the Go shooter demo in Dafny. The player fires at two enemies, `en1` and `en2`. A shot hits an enemy when the enemy is visible, projects inside the 796×448 viewport, and lies less than 50 pixels from the reticle at (338, 184). A hit calls `DelHP`, which takes 20 off the enemy's HP. An enemy whose HP has dropped to 0 or below is reset during the next draw and hidden. A timer then brings it back at a random spot in its lane.

The project has two modules.

- `Combat` (combat.dfy) states the rules on values:
  - one shot at one enemy (`ShotOutcome`) and at the whole list (`FireStep`);
  - the mouse handling of `Update` (`UpdateFrame`);
  - the death sweep of `Draw` (`Sweep`, `DrawFrame`);
  - the health bars drawn (`HealthBars`);
  - the respawn done by `AddDelEm` (`Respawn`, `RespawnFires`);
  - the invariant `Consistent`, and lemmas about all of these.
- `Engine` (engine.dfy) holds the imperative objects of engine/engine.go:
  - an `Enemy` class whose fields are updated in place, as the Go code does through `*Enemy`;
  - a `Game` class that owns `enemyList`, the `IsFire` latch, and counters for sound restarts and scheduled respawns.

  The helper loops are proved equal to their `Combat` functions: `Game.Shoot` to `FireStep`, `Game.SweepDeaths` to `Sweep` and `CountDead`, `Game.HealthBarWidths` (which changes no state) to `HealthBars`, and `Game.AddDelEm` to `Respawn`. `Enemy.DelHP` is stated through `Damaged` and `Enemy.ResetIfDead` through `SweepOne`. The invariant `Game.Valid` (distinct records and `Consistent`) is established by the constructor and is required and kept by `Game.Update`, `Game.Draw` and `Game.RespawnTimerFires`.

The model handles its external inputs as follows:
- The left-button press and release edges are a `MouseInput` parameter.
- Each enemy's projected screen position (the camera's `WorldToScreen` result) is a parameter.
- The `rand.Intn(3)` and `rand.Intn(10)` draws are parameters, bounded by `ValidDraws`.
- The two goroutines become explicit state. The gun-sound goroutine is the counter `audioRestarts`. Each delayed `AddDelEm` is one unit of `pendingRespawns`, and `Game.RespawnTimerFires` is the later moment it fires.
- An enemy's scene node is folded into the enemy. The node's visibility and position are the fields `visible` and `pos`.

Some behaviours of the code are easy to misread; the model follows the code as written:
- HP is not floored at 0. A hit on 8 HP leaves -12, so HP stays in (-20, 48] and is positive again only after the sweep.
- Each death starts its own timer, but every timer runs the same `AddDelEm`, so whichever fires first brings back every hidden enemy (`RespawnOutcome`). A later timer that finds nobody hidden does nothing (`LateRespawnIsNoOp`).
- The death check is `HP <= 0`. It runs on every enemy, not only visible ones. A hidden enemy always has full HP (part of `Consistent`), so the check selects only visible enemies anyway.
- `shoted` is never cleared by time. It changes only when a shot is processed for a visible, on-screen enemy, or when the enemy dies.

## Model

| member | source | states |
|---|---|---|
| `Combat.Damaged` | engine/engine.go:39-43 | one hit never raises HP; it lowers HP exactly when HP is positive, and a positive HP stays above -20 |
| `Combat.HPAfterHits` | engine/engine.go:39-43 | n hits lower HP by at most 20 each and never raise it; an enemy at 0 HP or below is not changed by further hits |
| `Combat.HitsToKill` | engine/engine.go:39-43 | n hits on a living enemy leave hp - 20n while that is positive; once HP reaches 0 or below it stays there, within (-20, 0]; a dead enemy is untouched |
| `Combat.FullHealthDiesOnThirdHit` | engine/engine.go:120-121 | from the starting 48 HP, the hits leave 28, then 8, then -12 (no clamping) |
| `Combat.SqDistToReticle` | engine/engine.go:184 | the squared distance from the reticle is never negative |
| `Combat.InViewport` | engine/engine.go:183 | every position inside the hit disc around the reticle passes the viewport test, so the test never stops a hit |
| `Combat.IsHit` | engine/engine.go:184 | a hit lies on screen and less than 50 from the reticle along each axis |
| `Combat.HitTestIsDistanceTest` | engine/engine.go:184 | the squared-distance test is a hit exactly when the distance from the reticle, `Magnitude()`, is below 50 |
| `Combat.ShotOutcome` | engine/engine.go:181-195 | a shot never changes an enemy's name, visibility or position |
| `Combat.ShotCases` | engine/engine.go:181-195 | a hidden or off-screen enemy is left completely unchanged, including its old `shoted`; an eligible enemy gets `shoted` equal to "hit"; HP changes exactly on a hit at positive HP, and then by 20 |
| `Combat.HitBoundaries` | engine/engine.go:183-184 | at the reticle it is a hit; exactly 50 away it is a miss that clears `shoted`; (796, 448) is on screen, and just past it is not |
| `Combat.FireStep` | engine/engine.go:180-196 | the shot keeps the list length and every enemy's name, visibility and position, so the number of hidden enemies is unchanged |
| `Combat.FireStepIndependent` | engine/engine.go:180-196 | the result for enemy i depends only on enemy i and its own screen position |
| `Combat.UpdateFrame` | engine/engine.go:179-209 | the mouse handling keeps the list length, the hidden count and the scheduled respawns; it restarts the sound at most once; after a release the latch is clear |
| `Combat.NoPressNoChange` | engine/engine.go:179 | without a just-pressed left button, no enemy changes and the sound is neither restarted nor re-set |
| `Combat.FireLatch` | engine/engine.go:198-209 | a press while `IsFire` is clear restarts the sound once, sets volume 2 and sets the latch; a press while it is set changes neither; a release clears it |
| `Combat.SweepOne` | engine/engine.go:275-279 | the sweep of one enemy keeps its name and position and leaves HP positive; an enemy still visible is untouched, and a changed one is at 48 HP, unmarked and hidden |
| `Combat.Sweep` | engine/engine.go:275-279 | the sweep keeps the list length, leaves every HP positive, and leaves every enemy that stays visible untouched |
| `Combat.CountDead` | engine/engine.go:280-283 | the number of respawns one draw schedules is at most the number of enemies |
| `Combat.CountHidden` | engine/engine.go:278 | the number of hidden enemies is at most the number of enemies |
| `Combat.DrawFrame` | engine/engine.go:275-284 | the draw keeps the list length, the latch, the volume and the sound restarts; every HP is positive afterwards; it schedules between 0 and one respawn per enemy |
| `Combat.SweepOutcome` | engine/engine.go:275-284 | every enemy with HP <= 0 ends at 48 HP, unmarked and hidden; the others are untouched; afterwards every HP is positive and no death is left |
| `Combat.CountHiddenAfterSweep` | engine/engine.go:275-284 | the sweep hides exactly the dead enemies: the hidden count grows by the number of deaths, and that is the number of respawns scheduled |
| `Combat.DrawIdempotent` | engine/engine.go:275-284 | a second draw changes nothing and schedules no second respawn for the same death |
| `Combat.HealthBars` | engine/engine.go:285-291 | there is at most one bar per enemy, and every bar width is the HP of some marked enemy |
| `Combat.DrawnBarsInRange` | engine/engine.go:285-291 | every health bar drawn after the sweep has a width (its HP) in (0, 48] |
| `Combat.RespawnPos` | engine/engine.go:66-73 | with draws r in [0,2] and r1 in [0,9], the new position lies in the enemy's lane |
| `Combat.InLaneIffReachable` | engine/engine.go:66-73 | an enemy's lane is exactly the set of positions some draws r in [0,2], r1 in [0,9] produce: (21+r1, 1, -9-r) for en1, (20+r1, 1, 2-r) for the others |
| `Combat.RespawnOne` | engine/engine.go:64-76 | the respawn of one enemy keeps its name, HP and mark and leaves it visible; a visible enemy is untouched |
| `Combat.Respawn` | engine/engine.go:62-78 | the respawn keeps the list length and every name and HP; afterwards every enemy is visible, and those visible before are untouched |
| `Combat.RespawnOutcome` | engine/engine.go:62-78 | one respawn leaves visible enemies as they are and makes every hidden one visible at its lane position, keeping HP and `shoted`; afterwards nobody is hidden |
| `Combat.LateRespawnIsNoOp` | engine/engine.go:62-78 | a respawn when nobody is hidden changes nothing |
| `Combat.RespawnFires` | engine/engine.go:280-283 | a firing timer uses up one scheduled respawn, leaves nobody hidden, and does not touch the latch, the volume or the sound |
| `Combat.InitialConsistent` | engine/engine.go:113-121 | the starting game (two enemies at 48 HP at their lane origins, nobody hidden) satisfies the invariant |
| `Combat.UpdatePreservesConsistent` | engine/engine.go:179-209 | the mouse handling keeps the invariant: HP in (-20, 48]; hidden means full HP and unmarked; in lane; every hidden enemy has a pending respawn |
| `Combat.DrawPreservesConsistent` | engine/engine.go:275-284 | the sweep keeps the invariant |
| `Combat.RespawnPreservesConsistent` | engine/engine.go:62-78 | a firing respawn timer keeps the invariant |
| `Combat.NoPressFrames` | engine/engine.go:179 | frames without a press only sweep: the enemies end as one sweep leaves them, and the sound is never restarted |
| `Combat.HeldTriggerFiresOnce` | engine/engine.go:179-209 | if only the first of a run of frames is a press, the enemies end as one shot and one sweep leave them, and the sound restarts at most once |
| `Engine.Enemy.constructor` | engine/engine.go:120-121 | a new enemy has 48 HP, is unmarked and is visible at the given position |
| `Engine.Enemy.DelHP` | engine/engine.go:39-43 | only HP changes, to `Damaged` of the old HP |
| `Engine.Enemy.ResetIfDead` | engine/engine.go:276-279 | the record becomes what the sweep makes of it, and the method reports whether it died |
| `Engine.Game.constructor` | engine/engine.go:113-131 | the game starts with en1 at (21,1,-9) and en2 at (20,1,2), both at 48 HP; latch clear; volume 0; nothing scheduled; invariant holds |
| `Engine.Game.Shoot` | engine/engine.go:180-196 | the loop leaves the enemy list as `FireStep` of the old list and the screen positions |
| `Engine.Game.Update` | engine/engine.go:179-209 | the new game state is `UpdateFrame` of the old one, and the invariant is kept |
| `Engine.Game.SweepDeaths` | engine/engine.go:275-284 | the loop leaves the list swept and adds one scheduled respawn per dead enemy |
| `Engine.Game.HealthBarWidths` | engine/engine.go:285-291 | the bars drawn are the HP of the marked enemies, in list order |
| `Engine.Game.Draw` | engine/engine.go:268-291 | the new state is `DrawFrame` of the old one and the invariant is kept; the muzzle flash shows exactly when `IsFire` is set; every bar width is in (0, 48] |
| `Engine.Game.AddDelEm` | engine/engine.go:62-78 | the loop leaves the list as `Respawn` of the old list and the draws |
| `Engine.Game.RespawnTimerFires` | engine/engine.go:280-283 | one scheduled timer is used up and `AddDelEm` runs; the new state is `RespawnFires` of the old one, and the invariant is kept |

## Left out

- `Engine.Game.Draw`: the Go loop sweeps each enemy and then draws its bar before moving to the next enemy. The model sweeps all enemies first and then draws the bars, so that each loop's proof stays small. Sweeping one enemy does not alter another, so the bars are the same.
- `Engine.Game.AddDelEm`: the model takes one pair of draws for every enemy and uses only the hidden enemies' pairs. The Go code calls `rand.Intn` only for hidden enemies. Since the draws are arbitrary inputs, the reachable outcomes are the same.
- `ResetLocalTransform` in `AddDelEm` also resets the node's rotation and scale. Rotation is not modelled, because `Update` overwrites every enemy's rotation each frame (camera-facing billboards).
- Camera movement, tilt clamping, billboard rotation, the spinning `Spin` model and the quit key are float matrix math and input glue, not combat state.
- Projection by `WorldToScreen` is an input. `Magnitude()` is modelled through the squared distance over reals (`HitTestIsDistanceTest`), so float rounding is not modelled.
- Goroutines and the 2-second `time.Sleep` are not modelled as concurrency. The sound restart is a counter. A respawn is an explicit later call, and its delay is not measured. The unsynchronised race between a timer and the frame loop is not modelled.
- `rand.Seed` and the random generator are replaced by bounded inputs.
- Rendering (`RenderImg`, `DrawImage`, `DebugPrint`), the fullscreen toggle and the `fmt.Println` hit and miss messages are outside the model. What `Draw` decides from the state is returned instead: the muzzle flash and the bar widths.
- Reading assets, decoding images, loading GLTF, decoding mp3, creating the audio context and capturing the cursor in `NewGame` are foreign-library I/O and are not modelled.
- main.go is an earlier variant of the program without enemies, and it is not part of this model. engine/shader/shade.go is a GPU shader held as a string, and it is not part of this model either.
