/**
 * The game's state as a value, one function per phase of a frame, the whole
 * frame, the restart, and the invariant every frame keeps.
 *
 * Input, randomness and the rectangle-overlap test come from outside the game
 * and are parameters: `k` holds the keys read this frame, `rng` the random
 * rolls (one per spawned enemy, used in order from `rng(0)`), and `collide`
 * the overlap test the rendering library provides.
 */
module Frame {
  import opened Entities
  import opened Passes

  /** The player's mutable fields: position, lives and collision rectangle. */
  datatype PlayerState = PlayerState(x: real, y: real, rec: Rect, lives: int)

  datatype GameState = GameState(
    player: PlayerState,
    bullets: seq<Bullet>,
    enemies: seq<Enemy>,
    score: int,
    highScore: int,
    gameOver: bool)

  /** The keys the game reads: right and left held down, space and R pressed. */
  datatype Keys = Keys(rightDown: bool, leftDown: bool, spacePressed: bool, rPressed: bool)

  /** The player's row: 20 pixels above the bottom edge for a ship of this height. */
  function PlayerY(t: Texture): real
  {
    (ScreenHeight - t.height - 20) as real
  }

  /** The player as created, and as put back by a restart. */
  function PlayerStart(t: Texture): (p: PlayerState)
    ensures p.x == (ScreenWidth / 2) as real && p.y + t.height as real == (ScreenHeight - 20) as real
    ensures p.rec == Rect(p.x, p.y, t.width as real, t.height as real) && p.lives == MaxLives
  {
    var x := (ScreenWidth / 2) as real;
    PlayerState(x, PlayerY(t), Rect(x, PlayerY(t), t.width as real, t.height as real), MaxLives)
  }

  /** Pushes x back onto the screen for a ship `w` pixels wide: first off the
      left edge, then off the right edge (which wins for a ship wider than the
      screen). */
  function ClampX(x: real, w: nat): (r: real)
    ensures w <= ScreenWidth ==> 0.0 <= r && r + w as real <= ScreenWidth as real
    ensures 0.0 <= x && x + w as real <= ScreenWidth as real ==> r == x
  {
    var lo := if x <= 0.0 then 0.0 else x;
    if lo + w as real >= ScreenWidth as real then (ScreenWidth - w) as real else lo
  }

  /** The player's move: right then left by its speed, clamped, with the
      collision rectangle following x. */
  function MovePlayer(t: Texture, p: PlayerState, right: bool, left: bool): (r: PlayerState)
    ensures r.y == p.y && r.lives == p.lives && r.rec == p.rec.(x := r.x)
    ensures t.width <= ScreenWidth ==> 0.0 <= r.x && r.x + t.width as real <= ScreenWidth as real
    ensures right == left && 0.0 <= p.x && p.x + t.width as real <= ScreenWidth as real ==> r.x == p.x
    ensures right && !left && 0.0 <= p.x + PlayerSpeed && p.x + PlayerSpeed + t.width as real <= ScreenWidth as real ==>
              r.x == p.x + PlayerSpeed
    ensures left && !right && 0.0 <= p.x - PlayerSpeed && p.x - PlayerSpeed + t.width as real <= ScreenWidth as real ==>
              r.x == p.x - PlayerSpeed
  {
    var x1 := if right then p.x + PlayerSpeed else p.x;
    var x2 := if left then x1 - PlayerSpeed else x1;
    var x := ClampX(x2, t.width);
    p.(x := x, rec := p.rec.(x := x))
  }

  function MovePhase(c: Config, s: GameState, k: Keys): (r: GameState)
    ensures r == s.(player := r.player)
    ensures r.player.y == s.player.y && r.player.lives == s.player.lives
  {
    s.(player := MovePlayer(c.player, s.player, k.rightDown, k.leftDown))
  }

  function SweepPhase(s: GameState): GameState
  {
    s.(bullets := SweepBullets(s.bullets))
  }

  /** Firing: with space pressed and fewer than `MaxBullets` bullets, one new
      bullet is appended, centred on the ship and level with its top row. */
  function FirePhase(c: Config, s: GameState, k: Keys): (r: GameState)
    ensures |r.bullets| == if k.spacePressed && |s.bullets| < MaxBullets then |s.bullets| + 1 else |s.bullets|
    ensures r.bullets[..|s.bullets|] == s.bullets
    ensures r == s.(bullets := r.bullets)
    ensures |r.bullets| > |s.bullets| ==>
              r.bullets[|s.bullets|].active && r.bullets[|s.bullets|].rect.y == s.player.y
  {
    if k.spacePressed && |s.bullets| < MaxBullets then
      s.(bullets := s.bullets + [NewBullet(s.player.x + (c.player.width / 2) as real - 2.5, s.player.y)])
    else
      s
  }

  function EnemyPhase(c: Config, s: GameState, rng: nat -> SpawnRoll): GameState
  {
    s.(enemies := EnemyPass(c, [], s.enemies, rng, 0).enemies)
  }

  function HitPhase(s: GameState, collide: (Rect, Rect) -> bool): GameState
  {
    var h := HitPass(s.bullets, s.enemies, collide);
    s.(bullets := h.bullets, enemies := h.enemies, score := s.score + h.count)
  }

  /** Crashing into enemies: one life per enemy retired; the game is over once
      some decrement brings lives to zero or below, which is when the last of
      them does. */
  function CrashPhase(s: GameState, collide: (Rect, Rect) -> bool): (r: GameState)
    ensures r.player.lives <= s.player.lives
    ensures r.gameOver <==> s.gameOver || (r.player.lives < s.player.lives && r.player.lives <= 0)
    ensures r == s.(player := r.player, enemies := r.enemies, gameOver := r.gameOver)
    ensures r.player == s.player.(lives := r.player.lives)
  {
    var cr := CrashPass(s.player.rec, s.enemies, collide);
    var lives := s.player.lives - cr.count;
    s.(player := s.player.(lives := lives),
       enemies := cr.enemies,
       gameOver := s.gameOver || (cr.count > 0 && lives <= 0))
  }

  /** The restart: the high score takes the better of itself and the score, the
      score, lives and player go back to their starting values, a new wave of
      enemies is spawned, and the bullets are left as they are. */
  function Restart(c: Config, s: GameState, rng: nat -> SpawnRoll): (r: GameState)
    ensures r.highScore >= s.highScore && r.highScore >= s.score
    ensures r.highScore == s.highScore || r.highScore == s.score
    ensures r.score == 0 && r.player.lives == MaxLives && !r.gameOver
    ensures r.player == PlayerStart(c.player)
    ensures r.bullets == s.bullets
    ensures |r.enemies| == MaxEnemies
    ensures forall j :: 0 <= j < |r.enemies| ==> r.enemies[j].active && EnemyInv(c, r.enemies[j])
  {
    s.(player := PlayerStart(c.player),
       highScore := if s.score > s.highScore then s.score else s.highScore,
       score := 0,
       gameOver := false,
       enemies := Spawns(c, rng, MaxEnemies))
  }

  /** The state the game starts in. */
  function Initial(c: Config, rng: nat -> SpawnRoll): (r: GameState)
    ensures r.player == PlayerStart(c.player) && r.bullets == [] && r.enemies == Spawns(c, rng, MaxEnemies)
    ensures r.score == 0 && r.highScore == 0 && !r.gameOver
    ensures Inv(c, r)
  {
    GameState(PlayerStart(c.player), [], Spawns(c, rng, MaxEnemies), 0, 0, false)
  }

  /** One frame. Once the game is over only a restart can happen; otherwise the
      phases run in the game's order: move, sweep bullets, fire, sweep enemies,
      bullet hits, crashes. */
  function FrameStep(c: Config, s: GameState, k: Keys, rng: nat -> SpawnRoll, collide: (Rect, Rect) -> bool): GameState
  {
    if s.gameOver then
      if k.rPressed then Restart(c, s, rng) else s
    else
      var s1 := MovePhase(c, s, k);
      var s2 := SweepPhase(s1);
      var s3 := FirePhase(c, s2, k);
      var s4 := EnemyPhase(c, s3, rng);
      var s5 := HitPhase(s4, collide);
      CrashPhase(s5, collide)
  }

  /** What holds of the game between frames. */
  ghost predicate Inv(c: Config, s: GameState)
  {
    s.player.y == PlayerY(c.player) &&
    s.player.rec == Rect(s.player.x, s.player.y, c.player.width as real, c.player.height as real) &&
    1 - MaxEnemies <= s.player.lives <= MaxLives &&
    (s.gameOver <==> s.player.lives <= 0) &&
    0 <= s.score && 0 <= s.highScore &&
    |s.bullets| <= MaxBullets &&
    (forall k :: 0 <= k < |s.bullets| ==> BulletInv(s.bullets[k])) &&
    |s.enemies| == MaxEnemies &&
    (forall j :: 0 <= j < |s.enemies| ==> EnemyInv(c, s.enemies[j]))
  }

  lemma MoveKeepsInv(c: Config, s: GameState, k: Keys)
    requires Inv(c, s)
    ensures Inv(c, MovePhase(c, s, k))
  {
  }

  lemma SweepKeepsInv(c: Config, s: GameState)
    requires Inv(c, s)
    ensures Inv(c, SweepPhase(s))
  {
    SweepBulletsShape(s.bullets);
  }

  lemma FireKeepsInv(c: Config, s: GameState, k: Keys)
    requires Inv(c, s)
    ensures Inv(c, FirePhase(c, s, k))
  {
    var r := FirePhase(c, s, k);
    forall j | 0 <= j < |r.bullets| ensures BulletInv(r.bullets[j]) {
      if j < |s.bullets| {
        assert r.bullets[j] == r.bullets[..|s.bullets|][j];
      }
    }
  }

  lemma EnemyPhaseKeepsInv(c: Config, s: GameState, rng: nat -> SpawnRoll)
    requires Inv(c, s)
    ensures Inv(c, EnemyPhase(c, s, rng))
  {
    EnemyPassShape(c, [], s.enemies, rng, 0);
    EnemyPassKeepsInv(c, [], s.enemies, rng, 0);
  }

  lemma HitPhaseKeepsInv(c: Config, s: GameState, collide: (Rect, Rect) -> bool)
    requires Inv(c, s)
    ensures Inv(c, HitPhase(s, collide))
  {
    HitPassFacts(s.bullets, s.enemies, collide);
    var r := HitPhase(s, collide);
    forall j | 0 <= j < |r.enemies| ensures EnemyInv(c, r.enemies[j]) {
      assert EnemyInv(c, s.enemies[j]);
    }
    forall j | 0 <= j < |r.bullets| ensures BulletInv(r.bullets[j]) {
      assert BulletInv(s.bullets[j]);
    }
  }

  lemma CrashPhaseKeepsInv(c: Config, s: GameState, collide: (Rect, Rect) -> bool)
    requires Inv(c, s) && !s.gameOver
    ensures Inv(c, CrashPhase(s, collide))
  {
    CrashFacts(s.player.rec, s.enemies, collide);
    var r := CrashPhase(s, collide);
    forall j | 0 <= j < |r.enemies| ensures EnemyInv(c, r.enemies[j]) {
      assert EnemyInv(c, s.enemies[j]);
    }
  }

  /** Every frame keeps the invariant: at most `MaxBullets` bullets, exactly
      `MaxEnemies` enemies all in range, lives between 1 - `MaxEnemies` and
      `MaxLives`, game over exactly when lives are gone, and scores non-negative. */
  lemma FrameKeepsInv(c: Config, s: GameState, k: Keys, rng: nat -> SpawnRoll, collide: (Rect, Rect) -> bool)
    requires Inv(c, s)
    ensures Inv(c, FrameStep(c, s, k, rng, collide))
  {
    if !s.gameOver {
      var s1 := MovePhase(c, s, k);
      MoveKeepsInv(c, s, k);
      var s2 := SweepPhase(s1);
      SweepKeepsInv(c, s1);
      var s3 := FirePhase(c, s2, k);
      FireKeepsInv(c, s2, k);
      var s4 := EnemyPhase(c, s3, rng);
      EnemyPhaseKeepsInv(c, s3, rng);
      var s5 := HitPhase(s4, collide);
      HitPhaseKeepsInv(c, s4, collide);
      CrashPhaseKeepsInv(c, s5, collide);
    }
  }

  /** A finished game stands still until R is pressed. */
  lemma GameOverWaitsForRestart(c: Config, s: GameState, k: Keys, rng: nat -> SpawnRoll, collide: (Rect, Rect) -> bool)
    requires s.gameOver
    ensures !k.rPressed ==> FrameStep(c, s, k, rng, collide) == s
    ensures k.rPressed ==> FrameStep(c, s, k, rng, collide) == Restart(c, s, rng)
  {
  }

  /** The high score never decreases, and the score only grows while playing. */
  lemma ScoresNeverDrop(c: Config, s: GameState, k: Keys, rng: nat -> SpawnRoll, collide: (Rect, Rect) -> bool)
    ensures FrameStep(c, s, k, rng, collide).highScore >= s.highScore
    ensures !s.gameOver ==> FrameStep(c, s, k, rng, collide).score >= s.score
  {
  }

  /** While playing, a frame scores at most as many points as there were active
      bullets, and at most as many as there were active enemies, when the hit
      pass began. */
  lemma ScoreGainBound(c: Config, s: GameState, k: Keys, rng: nat -> SpawnRoll, collide: (Rect, Rect) -> bool)
    requires !s.gameOver
    ensures var s4 := EnemyPhase(c, FirePhase(c, SweepPhase(MovePhase(c, s, k)), k), rng);
            var gain := FrameStep(c, s, k, rng, collide).score - s.score;
            0 <= gain <= ActiveBullets(s4.bullets) && gain <= ActiveEnemies(s4.enemies)
  {
    var s4 := EnemyPhase(c, FirePhase(c, SweepPhase(MovePhase(c, s, k)), k), rng);
    HitPassFacts(s4.bullets, s4.enemies, collide);
  }

  /** While playing, lives drop by exactly the number of enemies the crash pass
      retires, and the game ends exactly when lives reach zero or below. */
  lemma LivesLost(c: Config, s: GameState, k: Keys, rng: nat -> SpawnRoll, collide: (Rect, Rect) -> bool)
    requires Inv(c, s) && !s.gameOver
    ensures var s5 := HitPhase(EnemyPhase(c, FirePhase(c, SweepPhase(MovePhase(c, s, k)), k), rng), collide);
            var r := FrameStep(c, s, k, rng, collide);
            s.player.lives - r.player.lives == ActiveEnemies(s5.enemies) - ActiveEnemies(r.enemies) &&
            (r.gameOver <==> r.player.lives <= 0)
  {
    var s5 := HitPhase(EnemyPhase(c, FirePhase(c, SweepPhase(MovePhase(c, s, k)), k), rng), collide);
    CrashFacts(s5.player.rec, s5.enemies, collide);
  }

  /** Lives can fall below zero: two enemies hitting a ship with one life left
      in the same frame leave it at -1. */
  lemma LivesCanGoNegative(e: Enemy, rec: Rect)
    requires e.active
    ensures var s := GameState(PlayerState(0.0, 0.0, rec, 1), [], [e, e], 0, 0, false);
            var r := CrashPhase(s, (a: Rect, b: Rect) => true);
            r.player.lives == -1 && r.gameOver
  {
    var cr := CrashPass(rec, [e, e], (a: Rect, b: Rect) => true);
    assert [e, e][1..] == [e];
    assert CrashPass(rec, [e], (a: Rect, b: Rect) => true).count == 1;
    assert cr.count == 2;
  }
}
