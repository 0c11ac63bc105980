/**
 * Constants and value entities of the shooter: rectangles, textures, bullets,
 * enemies, the random rolls that place a new enemy, and the per-frame step of
 * a single bullet or enemy.
 *
 * Positions are `real`: the game keeps them in `float`, but every step is a
 * whole number (or, for a bullet's x, a half), so no rounding ever happens.
 */
module Entities {

  const ScreenWidth: int := 600
  const ScreenHeight: int := 800
  const ScrollingSpeed: real := 2.0
  const MaxLives: int := 3
  const MaxEnemies: int := 4
  const MaxBullets: int := 50

  const PlayerSpeed: real := 10.0
  const BulletSpeed: real := 10.0
  const EnemySpeed: real := 2.0
  const BulletWidth: real := 5.0
  const BulletHeight: real := 10.0

  /** Right edge of the range a new enemy's x is drawn from. */
  const SpawnMaxX: int := ScreenWidth - 64
  const SpawnMinY: int := -500
  const SpawnMaxY: int := -50

  /** An axis-aligned rectangle, as the rendering library's `Rectangle`. */
  datatype Rect = Rect(x: real, y: real, width: real, height: real)

  /** The size of a loaded sprite; nothing else of a texture matters here. */
  datatype Texture = Texture(width: nat, height: nat)

  datatype Bullet = Bullet(rect: Rect, active: bool)

  datatype Enemy = Enemy(x: real, y: real, img: Texture, active: bool)

  /** The three random values one enemy spawn draws: x, y and an image index. */
  datatype Roll = Roll(x: int, y: int, image: int)

  /** A roll whose values lie in the ranges the random generator is asked for. */
  type SpawnRoll = r: Roll | 0 <= r.x <= SpawnMaxX && SpawnMinY <= r.y <= SpawnMaxY && 0 <= r.image < MaxEnemies
    witness Roll(0, SpawnMaxY, 0)

  /** The sprite sizes the game loads: the ship and the four enemy images. */
  datatype Setup = Setup(player: Texture, enemyImages: seq<Texture>)

  type Config = c: Setup | |c.enemyImages| == MaxEnemies
    witness Setup(Texture(0, 0), [Texture(0, 0), Texture(0, 0), Texture(0, 0), Texture(0, 0)])

  /** A fired bullet: active, 5 x 10, with its top-left corner at (x, y). */
  function NewBullet(x: real, y: real): (b: Bullet)
    ensures b.active && BulletInv(b) && b.rect.x == x && b.rect.y == y
  {
    Bullet(Rect(x, y, BulletWidth, BulletHeight), true)
  }

  /** A freshly spawned enemy: active, above the screen, with one of the four images. */
  function NewEnemy(c: Config, roll: SpawnRoll): (e: Enemy)
    ensures e.active && e.img in c.enemyImages
    ensures 0.0 <= e.x <= SpawnMaxX as real && SpawnMinY as real <= e.y <= SpawnMaxY as real
  {
    Enemy(roll.x as real, roll.y as real, c.enemyImages[roll.image], true)
  }

  /** The rectangle an enemy is hit-tested with: its position and its image's size. */
  function EnemyRect(e: Enemy): Rect
  {
    Rect(e.x, e.y, e.img.width as real, e.img.height as real)
  }

  /** One frame of a bullet: an active bullet rises by its speed and retires once
      it is wholly above the screen; an inactive one is left as it is. */
  function StepBullet(b: Bullet): (r: Bullet)
    ensures !b.active ==> r == b
    ensures b.active ==> r.rect == b.rect.(y := b.rect.y - BulletSpeed)
    ensures b.active ==> (r.active <==> r.rect.y + r.rect.height >= 0.0)
    ensures r.active ==> b.active
  {
    if b.active then
      var y := b.rect.y - BulletSpeed;
      Bullet(b.rect.(y := y), !(y + b.rect.height < 0.0))
    else
      b
  }

  /** One frame of an enemy: an active enemy descends by its speed and retires once
      it is below the bottom of the screen; an inactive one is left as it is. */
  function StepEnemy(e: Enemy): (r: Enemy)
    ensures !e.active ==> r == e
    ensures e.active ==> r.y == e.y + EnemySpeed && r.x == e.x && r.img == e.img
    ensures e.active ==> (r.active <==> r.y <= ScreenHeight as real)
    ensures r.active ==> e.active
  {
    if e.active then
      var y := e.y + EnemySpeed;
      Enemy(e.x, y, e.img, !(y > ScreenHeight as real))
    else
      e
  }

  /** The number of active bullets in a list. */
  function ActiveBullets(bs: seq<Bullet>): (n: nat)
    ensures n <= |bs|
  {
    if bs == [] then 0 else (if bs[0].active then 1 else 0) + ActiveBullets(bs[1..])
  }

  /** The number of active enemies in a list. */
  function ActiveEnemies(es: seq<Enemy>): (n: nat)
    ensures n <= |es|
  {
    if es == [] then 0 else (if es[0].active then 1 else 0) + ActiveEnemies(es[1..])
  }

  /** What stays true of every bullet in the game: the 5 x 10 size it is created with. */
  ghost predicate BulletInv(b: Bullet)
  {
    b.rect.width == BulletWidth && b.rect.height == BulletHeight
  }

  /** What stays true of every enemy in the game between frames: it was placed in
      the spawn range, has not passed the bottom of the screen, and shows one of
      the four enemy images. */
  ghost predicate EnemyInv(c: Config, e: Enemy)
  {
    0.0 <= e.x <= SpawnMaxX as real &&
    SpawnMinY as real <= e.y <= ScreenHeight as real &&
    e.img in c.enemyImages
  }
}
