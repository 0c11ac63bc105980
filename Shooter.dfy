/**
 * The player's ship and the game object, with their fields updated in place
 * as the game does it. Every method is proved against the value-level
 * functions of module Frame, so the properties proved there (the invariant,
 * the scores, the lives) hold of these objects too.
 */
module Shooter {
  import opened Entities
  import opened Passes
  import opened Frame

  /** The player's ship. */
  class Player {
    const img: Texture
    var x: real
    var y: real
    var lives: int
    var rec: Rect

    ghost function Abs(): PlayerState
      reads this
    {
      PlayerState(x, y, rec, lives)
    }

    constructor (img: Texture)
      ensures this.img == img && Abs() == PlayerStart(img)
    {
      this.img := img;
      x := (ScreenWidth / 2) as real;
      y := (ScreenHeight - img.height - 20) as real;
      lives := MaxLives;
      new;
      rec := Rect(x, y, img.width as real, img.height as real);
    }

    /** Moves the ship by the arrow keys and keeps it on screen; the collision
        rectangle follows it. */
    method Update(rightDown: bool, leftDown: bool)
      modifies this
      ensures Abs() == MovePlayer(img, old(Abs()), rightDown, leftDown)
      ensures img.width <= ScreenWidth ==> 0.0 <= x && x + img.width as real <= ScreenWidth as real
      ensures rec.x == x && y == old(y) && lives == old(lives)
    {
      if rightDown {
        x := x + PlayerSpeed;
      }
      if leftDown {
        x := x - PlayerSpeed;
      }
      if x <= 0.0 {
        x := 0.0;
      }
      if x + img.width as real >= ScreenWidth as real {
        x := (ScreenWidth - img.width) as real;
      }
      rec := rec.(x := x);
    }
  }

  /** The game: the ship, the bullet and enemy lists, the scores and the
      game-over flag. */
  class Game {
    const config: Config
    const player: Player
    var bullets: seq<Bullet>
    var enemies: seq<Enemy>
    var score: int
    var highScore: int
    var gameOver: bool

    ghost function Abs(): GameState
      reads this, player
    {
      GameState(player.Abs(), bullets, enemies, score, highScore, gameOver)
    }

    ghost predicate Valid()
      reads this, player
    {
      player.img == config.player && Inv(config, Abs())
    }

    /** A new game: a fresh ship, no bullets, zero scores and a wave of
        `MaxEnemies` enemies from the first rolls. */
    constructor (c: Config, rng: nat -> SpawnRoll)
      ensures config == c && fresh(player)
      ensures Valid()
      ensures Abs() == Initial(c, rng)
    {
      config := c;
      player := new Player(c.player);
      bullets := [];
      enemies := [];
      score := 0;
      highScore := 0;
      gameOver := false;
      new;
      var i := 0;
      while i < MaxEnemies
        invariant 0 <= i <= MaxEnemies
        invariant Abs() == Initial(c, rng).(enemies := Spawns(c, rng, i))
      {
        SpawnEnemy(rng(i));
        i := i + 1;
      }
    }

    /** Appends one enemy made from a roll of the random generator. */
    method SpawnEnemy(roll: SpawnRoll)
      modifies this`enemies
      ensures enemies == old(enemies) + [NewEnemy(config, roll)]
    {
      var e := Enemy(roll.x as real, roll.y as real, config.enemyImages[roll.image], true);
      enemies := enemies + [e];
    }

    /** One frame of play. */
    method Update(keys: Keys, rng: nat -> SpawnRoll, collide: (Rect, Rect) -> bool)
      requires Valid()
      modifies this, player
      ensures Valid()
      ensures Abs() == FrameStep(config, old(Abs()), keys, rng, collide)
    {
      ghost var s0 := Abs();
      FrameKeepsInv(config, s0, keys, rng, collide);
      if gameOver {
        if keys.rPressed {
          ResetGame(rng);
        }
        assert Abs() == FrameStep(config, s0, keys, rng, collide);
        return;
      }

      player.Update(keys.rightDown, keys.leftDown);
      ghost var s1 := MovePhase(config, s0, keys);
      assert Abs() == s1;

      UpdateBullets();
      ghost var s2 := SweepPhase(s1);
      assert Abs() == s2;

      Fire(keys);
      ghost var s3 := FirePhase(config, s2, keys);
      assert Abs() == s3;

      UpdateEnemies(rng);
      ghost var s4 := EnemyPhase(config, s3, rng);
      assert Abs() == s4;

      ResolveBulletHits(collide);
      ghost var s5 := HitPhase(s4, collide);
      assert Abs() == s5;

      ResolvePlayerHits(collide);
      assert Abs() == CrashPhase(s5, collide);
    }

    /** Fires a bullet from the centre of the ship's top row when space is
        pressed, unless `MaxBullets` bullets are already in flight. */
    method Fire(keys: Keys)
      requires player.img == config.player
      modifies this`bullets
      ensures Abs() == FirePhase(config, old(Abs()), keys)
    {
      if keys.spacePressed {
        if |bullets| < MaxBullets {
          var bullet := NewBullet(player.x + (player.img.width / 2) as real - 2.5, player.y);
          bullets := bullets + [bullet];
        }
      }
    }

    /** Steps every bullet, erasing those that leave the top while indexing
        forward, so the bullet after an erased one is skipped this frame. */
    method UpdateBullets()
      modifies this`bullets
      ensures bullets == SweepBullets(old(bullets))
      ensures Abs() == SweepPhase(old(Abs()))
    {
      var i := 0;
      ghost var done, rest := [], bullets;
      while i < |bullets|
        invariant bullets == done + rest
        invariant i == |done| || (i == |done| + 1 && rest == [])
        invariant SweepBullets(old(bullets)) == Sweep(done, rest)
      {
        ShiftUpdate(done, rest, StepBullet(bullets[i]));
        ShiftErase(done, rest, StepBullet(bullets[i]));
        bullets := bullets[i := StepBullet(bullets[i])];
        if !bullets[i].active {
          bullets := bullets[..i] + bullets[i + 1..];
          if |rest| == 1 {
            rest := [];
          } else {
            done, rest := done + [rest[1]], rest[2..];
          }
        } else {
          done, rest := done + [bullets[i]], rest[1..];
        }
        i := i + 1;
      }
    }

    /** Steps every enemy; one that leaves the bottom is erased and replaced by
        a new enemy at the end of the list, and the enemy after it is skipped
        this frame. */
    method UpdateEnemies(rng: nat -> SpawnRoll)
      modifies this`enemies
      ensures enemies == EnemyPass(config, [], old(enemies), rng, 0).enemies
      ensures Abs() == EnemyPhase(config, old(Abs()), rng)
    {
      var i := 0;
      var drawn := 0;
      while i < |enemies|
        invariant 0 <= i <= |enemies| == |old(enemies)|
        invariant EnemyPass(config, [], old(enemies), rng, 0) ==
                  EnemyPass(config, enemies[..i], enemies[i..], rng, drawn)
      {
        ghost var done, rest := enemies[..i], enemies[i..];
        assert enemies == done + rest;
        enemies := enemies[i := StepEnemy(enemies[i])];
        if !enemies[i].active {
          enemies := enemies[..i] + enemies[i + 1..];
          assert enemies == done + rest[1..];
          SpawnEnemy(rng(drawn));
          ghost var q := rest[1..] + [NewEnemy(config, rng(drawn))];
          assert enemies == done + q;
          assert enemies[..i + 1] == done + [q[0]];
          assert enemies[i + 1..] == q[1..];
          drawn := drawn + 1;
        } else {
          assert enemies[..i + 1] == done + [StepEnemy(rest[0])];
          assert enemies[i + 1..] == rest[1..];
        }
        i := i + 1;
      }
      assert enemies[i..] == [];
      assert enemies[..i] == enemies;
    }

    /** Tests every bullet against every enemy; a hit between an active bullet
        and an active enemy retires both and scores a point. */
    method ResolveBulletHits(collide: (Rect, Rect) -> bool)
      modifies this`bullets, this`enemies, this`score
      ensures var h := HitPass(old(bullets), old(enemies), collide);
              bullets == h.bullets && enemies == h.enemies && score == old(score) + h.count
      ensures Abs() == HitPhase(old(Abs()), collide)
    {
      ghost var all := HitPass(bullets, enemies, collide);
      ghost var done, rest, cur := [], bullets, all;
      var i := 0;
      while i < |bullets|
        invariant bullets == done + rest && i == |done|
        invariant cur == HitPass(rest, enemies, collide)
        invariant all.bullets == done + cur.bullets && all.enemies == cur.enemies
        invariant old(score) + all.count == score + cur.count
      {
        ghost var row := HitRow(rest[0], enemies, collide);
        ghost var next := HitPass(rest[1..], row.enemies, collide);
        ResolveBulletRow(i, collide);
        ShiftUpdate(done, rest, row.bullet);
        Shift(done, row.bullet, next.bullets);
        done, rest, cur := done + [row.bullet], rest[1..], next;
        i := i + 1;
      }
    }

    /** The inner loop of the bullet-versus-enemy test: bullet `i` against
        every enemy in turn. */
    method ResolveBulletRow(i: nat, collide: (Rect, Rect) -> bool)
      requires i < |bullets|
      modifies this`bullets, this`enemies, this`score
      ensures var r := HitRow(old(bullets[i]), old(enemies), collide);
              bullets == old(bullets)[i := r.bullet] && enemies == r.enemies && score == old(score) + r.hits
    {
      ghost var row := HitRow(bullets[i], enemies, collide);
      ghost var done, rest, cur := [], enemies, row;
      var j := 0;
      while j < |enemies|
        invariant enemies == done + rest && j == |done|
        invariant i < |bullets| == |old(bullets)| && bullets == old(bullets)[i := bullets[i]]
        invariant cur == HitRow(bullets[i], rest, collide)
        invariant row.bullet == cur.bullet && row.enemies == done + cur.enemies
        invariant row.hits == score - old(score) + cur.hits
      {
        var b, e := bullets[i], enemies[j];
        RowStep(b, rest, collide);
        if collide(b.rect, EnemyRect(e)) && b.active && e.active {
          bullets := bullets[i := b.(active := false)];
          enemies := enemies[j := e.(active := false)];
          score := score + 1;
          InactiveRow(b.(active := false), rest[1..], collide);
          Shift(done, enemies[j], rest[1..]);
        } else {
          Shift(done, e, HitRow(b, rest[1..], collide).enemies);
        }
        ShiftUpdate(done, rest, enemies[j]);
        done, rest := done + [enemies[j]], rest[1..];
        cur := HitRow(bullets[i], rest, collide);
        j := j + 1;
      }
    }

    /** Tests every enemy against the ship; each active enemy that overlaps it
        retires and costs a life, and the game ends once lives reach zero. */
    method ResolvePlayerHits(collide: (Rect, Rect) -> bool)
      modifies this`enemies, this`gameOver, player`lives
      ensures Abs() == CrashPhase(old(Abs()), collide)
    {
      var rec, es, lives, over := player.rec, enemies, player.lives, gameOver;
      ghost var all := CrashPass(rec, es, collide);
      ghost var done, rest, cur := [], es, all;
      var i := 0;
      while i < |es|
        invariant es == done + rest && i == |done|
        invariant cur == CrashPass(rec, rest, collide)
        invariant all.enemies == done + cur.enemies
        invariant lives <= old(player.lives)
        invariant all.count == old(player.lives) - lives + cur.count
        invariant over <==> old(gameOver) || (lives < old(player.lives) && lives <= 0)
      {
        var e := es[i];
        CrashStep(rec, rest, collide);
        if collide(rec, EnemyRect(e)) && e.active {
          lives := lives - 1;
          es := es[i := e.(active := false)];
          if lives <= 0 {
            over := true;
          }
        }
        ShiftUpdate(done, rest, es[i]);
        Shift(done, es[i], CrashPass(rec, rest[1..], collide).enemies);
        done, rest, cur := done + [es[i]], rest[1..], CrashPass(rec, rest[1..], collide);
        i := i + 1;
      }
      enemies, player.lives, gameOver := es, lives, over;
    }

    /** Starts a new game after game over: the high score keeps the better of
        itself and the score, the ship, lives and score are reset, and a new
        wave of enemies replaces the old one; the bullets are left alone. */
    method ResetGame(rng: nat -> SpawnRoll)
      requires player.img == config.player
      modifies this, player
      ensures Abs() == Restart(config, old(Abs()), rng)
    {
      player.x := (ScreenWidth / 2) as real;
      player.y := (ScreenHeight - player.img.height - 20) as real;
      player.rec := Rect(player.x, player.y, player.img.width as real, player.img.height as real);
      player.lives := MaxLives;

      if score > highScore {
        highScore := score;
      }
      score := 0;

      gameOver := false;

      enemies := [];
      var i := 0;
      while i < MaxEnemies
        invariant 0 <= i <= MaxEnemies
        invariant Abs() == Restart(config, old(Abs()), rng).(enemies := Spawns(config, rng, i))
      {
        SpawnEnemy(rng(i));
        i := i + 1;
      }
    }
  }
}
