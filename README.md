# Space shooter gameplay, modelled in Dafny

This project models the gameplay of a small raylib arcade shooter. The ship moves along the bottom of a 600 x 800 screen and fires bullets upward. Enemies descend and are destroyed by bullets or crash into the ship. A frame updates score, lives, the high score and the game-over flag.

The model follows the game's own structure:

- `Entities.dfy` (module `Entities`) holds the constants, the bullet and enemy values and their one-frame steps (`Bullet::Update`, `Enemy::Update`), and the spawn of a new enemy from its three random rolls.
- `Passes.dfy` (module `Passes`) has the four list passes of `Game::Update` as functions on sequences:
  - the bullet sweep and the enemy sweep, which erase while indexing, so the element that slides into an erased slot is skipped that frame;
  - the bullet-versus-enemy pass;
  - the ship-versus-enemy pass.
- `Frame.dfy` (module `Frame`) has the game state as a value:
  - one function per phase of a frame, the whole frame (`FrameStep`) and the restart;
  - the invariant every frame keeps, and the properties of scores and lives.
- `Shooter.dfy` (module `Shooter`) has the `Player` and `Game` classes. Their methods update fields in place, as the game does. Each loop of `Game::Update` is a method with its own loop invariants, proved against the matching pass. `Game.Update` is proved equal to `FrameStep`, so everything proved in `Frame` holds of the objects.
- `Background.dfy` (module `Scrolling`) has the scroll counter of `Background::Draw` and its cycle.

Things from outside the game are parameters:

- **Keys.** The keys read in a frame are a `Keys` value.
- **Random numbers.** The random numbers are a stream `rng: nat -> SpawnRoll`. Each roll holds the x, y and image index of one spawned enemy, and its type restricts them to the ranges the game asks for. A frame or a restart uses `rng(0)`, `rng(1)`, … in order.
- **Overlap test.** raylib's `CheckCollisionRecs` is the parameter `collide`.
- **Sprite sizes.** The sprite sizes are a `Config`: the ship's texture and the four enemy textures.

Two behaviours are kept as written rather than corrected:

- **Skipped elements.** After an erase, the loop index still advances, so the next element is not updated that frame (`SweepSkipsSuccessor`, `EnemyPassSkipsSuccessor`).
- **Lingering entities.** Bullets and enemies deactivated by a collision stay in their lists until a later sweep erases them.

Lives can fall below zero when several enemies hit the ship in one frame (`LivesCanGoNegative`). The invariant bounds them below by `1 - MaxEnemies`.

## Model

| member | source | states |
|---|---|---|
| Entities.NewEnemy | src/main.cpp:329-335 | A spawned enemy is active and shows one of the four enemy images. It lies at x in [0, 536] and y in [-500, -50]. |
| Entities.StepBullet | src/main.cpp:116-127 | An inactive bullet is left unchanged. An active bullet's y drops by exactly 10, and it stays active iff its bottom edge is still at or below the top of the screen. A bullet never becomes active again. |
| Entities.StepEnemy | src/main.cpp:156-167 | An inactive enemy is left unchanged. An active enemy's y grows by exactly 2 and nothing else moves. It stays active iff y <= 800. An enemy never becomes active again. |
| Frame.ClampX | src/main.cpp:78-81 | For a ship no wider than the screen, the clamped x keeps the whole ship on screen. An x that already does is left alone. |
| Frame.PlayerStart | src/main.cpp:56-64 | The start state of the ship: its left edge at x = 300 (half the screen width, so the sprite sits right of centre), its bottom edge 20 pixels above the bottom of the screen, a collision rectangle covering the sprite, and 3 lives. |
| Shooter.Player.constructor | src/main.cpp:56-64 | The new ship is `PlayerStart`: left edge at x = 300, bottom edge 20 pixels above the bottom of the screen, 3 lives, and a collision rectangle covering the sprite. |
| Frame.MovePlayer | src/main.cpp:71-83 | The ship's move. A ship no wider than the screen ends on screen. With no key, or both keys, an on-screen ship stays put. With one key it moves 10 pixels that way when that keeps it on screen. Only x and the rectangle's x change, and they stay equal. |
| Frame.MovePhase | src/main.cpp:213 | The move changes only the ship, and not its y or its lives. |
| Entities.NewBullet | src/main.cpp:101-106 | A new bullet is active, 5 x 10, with its corner at the given point. |
| Shooter.Player.Update | src/main.cpp:71-83 | The new ship state is the arrow-key move followed by the clamp. For a sprite no wider than 600, `0 <= x` and `x + width <= 600`. The rectangle's x equals x. The y and the lives are unchanged. |
| Frame.FirePhase | src/main.cpp:225-233 | Firing adds exactly one bullet iff space is pressed and fewer than 50 bullets exist. The new bullet is active, level with the ship's y, and appended after the unchanged old bullets. Nothing else in the state changes. |
| Frame.CrashPhase | src/main.cpp:260-272 | Lives never grow in the crash pass. The game is over afterwards iff it was over before, or lives dropped and now stand at zero or below; so the pass never clears game over. Only lives, enemies and the flag change. |
| Frame.Restart | src/main.cpp:304-327 | The high score becomes the larger of the high score and the score. Score is 0, lives are 3 and game over is cleared. The ship is back at its start and the bullets are untouched. There are exactly 4 enemies, all active and in range. |
| Passes.Spawns | src/main.cpp:196-199 | Spawning n times from the rolls gives n enemies, the j-th made from roll j. Each is active, in range and above the screen. |
| Passes.Sweep | src/main.cpp:215-223 | The erase-while-indexing loop as a function: each visited bullet is stepped; a retired one is dropped and the next one is passed over unchanged. Its properties are the `Sweep*` lemmas below. |
| Passes.SweepBullets | src/main.cpp:215-223 | The sweep of a whole list, as `Sweep` from an empty visited part. |
| Passes.SweepShape | src/main.cpp:215-223 | The bullet sweep keeps the passed prefix and never lengthens the list. Every bullet keeps its 5 x 10 size. Any inactive bullet left was already in the list: a bullet retired by its own step is always erased. |
| Passes.SweepBulletsShape | src/main.cpp:215-223 | The sweep of a whole list satisfies the same facts as `SweepShape`. |
| Passes.SweepWithoutRetirement | src/main.cpp:215-223 | When no step retires a bullet, the sweep is every bullet stepped once. |
| Passes.SweepSkipsSuccessor | src/main.cpp:219-222 | After an erased bullet, the sweep resumes after the next bullet, and that bullet sits unchanged at the erased bullet's index of the result, even if its own step would retire it. |
| Passes.EnemyPass | src/main.cpp:235-244 | The enemy loop as a function: each visited enemy is stepped; a retired one is dropped, a new enemy from the next roll is appended, and the next enemy is passed over unchanged. Its properties are the `EnemyPass*` lemmas below. |
| Passes.EnemyPassShape | src/main.cpp:235-244 | The enemy sweep keeps the number of enemies, because every erase is paired with a spawn. It keeps the passed prefix and uses at most one roll per visited slot. |
| Passes.EnemyPassKeepsInv | src/main.cpp:235-244 | Every enemy after the sweep is in the spawn x range, between y = -500 and the bottom of the screen, and shows one of the four images. |
| Passes.EnemyPassLingering | src/main.cpp:238-243 | Any inactive enemy left after the sweep was already in the list: an enemy retired by its own step is always erased. |
| Passes.EnemyPassWithoutRetirement | src/main.cpp:235-244 | When no step retires an enemy, the sweep is every enemy stepped once and no roll is used. |
| Passes.EnemyPassSkipsSuccessor | src/main.cpp:239-243 | After an erased enemy, the spawned enemy joins the part still to be visited, and the next enemy sits unchanged at the erased enemy's index of the result, even if its own step would retire it. |
| Passes.HitRow | src/main.cpp:249-257 | One bullet against the enemies in order. Its properties are `InactiveRow`, `RowFacts`, `RowScores` and `RowHitsFirst`. |
| Passes.InactiveRow | src/main.cpp:249-257 | An inactive bullet hits nothing and changes nothing. |
| Passes.RowFacts | src/main.cpp:249-257 | One bullet scores at most once, and only if it was active, by retiring itself and exactly one active enemy. Every other enemy is unchanged. |
| Passes.RowScores | src/main.cpp:249-256 | A row scores exactly when the bullet is active and overlaps some active enemy. |
| Passes.RowHitsFirst | src/main.cpp:249-256 | The enemy a row retires is active and overlapped by the active bullet, and no earlier enemy is both active and overlapped: the first such enemy is the one hit. |
| Passes.HitPass | src/main.cpp:246-258 | Every bullet in order, against the enemies as the earlier bullets left them. Its properties are `HitPassFacts` and `HitPassOverlap`. |
| Passes.HitPassFacts | src/main.cpp:246-258 | The hit pass moves nothing and only retires active entities. The points it adds equal both the number of bullets retired and the number of enemies retired. So the gain is at most the active bullets and at most the active enemies. |
| Passes.HitPassOverlap | src/main.cpp:246-258 | Every bullet the pass retires overlapped an active enemy, and every enemy it retires was overlapped by an active bullet. Afterwards no active bullet overlaps an active enemy, so the pass misses no hit. |
| Passes.CrashPass | src/main.cpp:260-272 | Every enemy in order against the ship's rectangle. Its properties are `CrashFacts` and `Frame.CrashPhase`. |
| Passes.CrashFacts | src/main.cpp:260-272 | Exactly the active enemies overlapping the ship retire. The lives lost equal the number retired, which is at most the active enemies. |
| Frame.Initial | src/main.cpp:187-200 | A new game has the ship at its start, no bullets, the first 4 spawns, zero scores and no game over. It satisfies the invariant. |
| Frame.MoveKeepsInv | src/main.cpp:213 | The ship's move keeps the invariant. |
| Frame.SweepKeepsInv | src/main.cpp:215-223 | The bullet sweep keeps the invariant. |
| Frame.FireKeepsInv | src/main.cpp:225-233 | Firing keeps the invariant, including at most 50 bullets. |
| Frame.EnemyPhaseKeepsInv | src/main.cpp:235-244 | The enemy sweep keeps the invariant, including exactly 4 enemies. |
| Frame.HitPhaseKeepsInv | src/main.cpp:246-258 | The hit pass keeps the invariant. |
| Frame.CrashPhaseKeepsInv | src/main.cpp:260-272 | While playing, the crash pass keeps the invariant: lives stay at least 1 - 4, and game over holds exactly when lives are at most 0. |
| Frame.FrameKeepsInv | src/main.cpp:202-273 | Every frame keeps the invariant. It covers at most 50 bullets of size 5 x 10, exactly 4 enemies in range, the ship on its row, and lives between -3 and 3. It also covers game over iff lives <= 0 and non-negative scores. |
| Frame.FrameStep | src/main.cpp:202-273 | One frame: once the game is over only a restart on R, otherwise the phases in the game's order. Its properties are `FrameKeepsInv` and the lemmas below. |
| Frame.GameOverWaitsForRestart | src/main.cpp:204-211 | Once the game is over, a frame changes nothing unless R is pressed, and then it is exactly the restart. |
| Frame.ScoresNeverDrop | src/main.cpp:202-273 | The high score never decreases, and while playing the score never decreases. |
| Frame.ScoreGainBound | src/main.cpp:246-258 | While playing, a frame's score gain is at most the active bullets and at most the active enemies when the hit pass starts. |
| Frame.LivesLost | src/main.cpp:260-272 | While playing, lives drop by exactly the number of enemies the crash pass retires. The game is over afterwards iff lives are at most 0. |
| Frame.LivesCanGoNegative | src/main.cpp:263-270 | Two active enemies hitting a ship with one life leave it at -1 lives with the game over. |
| Scrolling.NextScroll | src/main.cpp:27-34 | One frame either wraps the counter to 0 or adds 2. From a non-negative value it stays non-negative and below the height, or is 0. |
| Scrolling.ScrollAfter | src/main.cpp:27-34 | The counter after n frames from 0 is never negative, and is below the height or 0. |
| Scrolling.Period | src/main.cpp:27-34 | The number of frames in one cycle: the smallest p with 2p >= h. |
| Scrolling.ScrollRamp | src/main.cpp:27-34 | In the first cycle the counter after m frames is 2m. |
| Scrolling.ScrollWraps | src/main.cpp:27-34 | After one period of ceil(h / 2) frames the counter is back to 0. |
| Scrolling.ScrollPeriodic | src/main.cpp:27-34 | The counter repeats with that period. |
| Scrolling.ScrollCycles | src/main.cpp:27-34 | After q whole cycles and m more frames the counter reads 2m. |
| Scrolling.ScrollAt | src/main.cpp:27-34 | From 0, the counter after n frames is 2 (n mod period). It always lies in [0, height). |
| Scrolling.Background.constructor | src/main.cpp:21-25 | The counter starts at 0. |
| Scrolling.Background.Draw | src/main.cpp:27-34 | The counter advances by one frame and stays in range. |
| Shooter.Game.constructor | src/main.cpp:187-200 | A new game is the initial state: a fresh ship, no bullets, zero scores and 4 enemies from the first four rolls. The invariant holds. |
| Shooter.Game.SpawnEnemy | src/main.cpp:329-335 | Exactly one enemy, made from the roll, is appended. |
| Shooter.Game.Update | src/main.cpp:202-273 | One frame of the object equals `FrameStep` of its state and keeps the invariant. |
| Shooter.Game.Fire | src/main.cpp:225-233 | The firing step equals `FirePhase`. |
| Shooter.Game.UpdateBullets | src/main.cpp:215-223 | The in-place erase-while-indexing loop leaves exactly the bullet sweep of the old list. |
| Shooter.Game.UpdateEnemies | src/main.cpp:235-244 | The in-place loop with erase and spawn leaves exactly the enemy sweep of the old list, drawing rolls in order. |
| Shooter.Game.ResolveBulletHits | src/main.cpp:246-258 | The nested loop leaves the bullets, enemies and score of the hit pass, and equals `HitPhase`. |
| Shooter.Game.ResolveBulletRow | src/main.cpp:249-257 | The inner loop for bullet i leaves that bullet, the enemies and the score as one row of the hit pass. Every other bullet is unchanged. |
| Shooter.Game.ResolvePlayerHits | src/main.cpp:260-272 | The loop that decrements lives and sets game over on the decrement that reaches zero equals `CrashPhase`. |
| Shooter.Game.ResetGame | src/main.cpp:304-327 | The restart of the object equals `Restart` of its state. |

## Left out

- **Rendering.** All raylib drawing is left out: `DrawTextureEx`, `DrawRectangleRec`, `DrawText`, and the `Draw` methods apart from the scroll counter. This includes the draw call inside `Player::Update` and `Game::Game`. It is output only.
- **Textures.** Texture loading and unloading, constructors' `LoadTexture` and destructors are left out; only sprite sizes matter, and they are the `Config` parameter. Copying an `Enemy`, which shares its texture with the temporary whose destructor unloads it, is not modelled.
- **Input.** `IsKeyDown` and `IsKeyPressed` become the `Keys` parameter.
- **Randomness.** `GetRandomValue` becomes the `rng` roll stream, restricted to the requested ranges. `srand(time(0))` is left out.
- **Collision.** `CheckCollisionRecs` is raylib code that is not part of this model. It is the uninterpreted parameter `collide`, so no property here depends on what overlap means.
- **`main`.** The window and the frame loop of `main` are left out.
- **Integer width.** `score`, `highScore` and `lives` are 32-bit `int`s, modelled as unbounded integers. `score++` past 2^31 - 1 points overflows, which is undefined behaviour, and is not modelled. So the non-negative scores of `Frame.FrameKeepsInv` and the growth in `Frame.ScoresNeverDrop` describe the game only while the score stays below that bound.
- **Floating point.** `float` positions are `real`. Every step is an integer or a half, so no rounding occurs at these magnitudes.
- **Speeds.** The per-object speed fields, which are never changed, are the constants `PlayerSpeed`, `BulletSpeed` and `EnemySpeed`.
- **Method structure.** The four loops of `Game::Update` and its firing step are written as separate methods (`UpdateBullets`, `Fire`, `UpdateEnemies`, `ResolveBulletHits` with its inner loop `ResolveBulletRow`, `ResolvePlayerHits`), called in the same order. `ResolvePlayerHits` reads the ship's rectangle once before the loop, since nothing in the loop changes it. It also works on local copies of the enemy list, the lives and the game-over flag, and writes them back after the loop. No other code runs during the loop, so the final state is the same as updating the fields in place.
- **Bullet and enemy objects.** Bullets and enemies are values in their lists, as in the `std::vector`s. Their `Update` methods are the step functions, written back into the list at the same index.
