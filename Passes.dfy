/**
 * The list passes of one game frame, as functions on sequences: the bullet
 * sweep and the enemy sweep (each erasing while indexing, so the element that
 * slides into the erased slot is skipped), the bullet-versus-enemy hit pass,
 * the player-versus-enemy crash pass, and the spawning of a fresh wave.
 */
module Passes {
  import opened Entities

  // ------------------------------------------------------------- sequences

  /** Moving one element from the front of the part still to visit to the end
      of the part already passed leaves the whole unchanged. */
  lemma Shift<T>(done: seq<T>, x: T, rest: seq<T>)
    ensures done + ([x] + rest) == (done + [x]) + rest
  {
  }

  /** Overwriting the first element still to visit, then passing it. */
  lemma ShiftUpdate<T>(done: seq<T>, rest: seq<T>, x: T)
    requires rest != []
    ensures (done + rest)[|done| := x] == (done + [x]) + rest[1..]
  {
  }

  /** Overwriting the first element still to visit, then erasing it. */
  lemma ShiftErase<T>(done: seq<T>, rest: seq<T>, x: T)
    requires rest != []
    ensures var s := (done + rest)[|done| := x];
            s[..|done|] + s[|done| + 1..] == done + rest[1..]
    ensures |rest| > 1 ==> done + rest[1..] == (done + [rest[1]]) + rest[2..]
  {
    if |rest| > 1 {
      assert rest[1..] == [rest[1]] + rest[2..];
    }
  }

  // ---------------------------------------------------------------- bullets

  /** The bullet sweep over a list split into the part already passed (`done`)
      and the part still to visit (`rest`). Each visited bullet is stepped; one
      that the step retires is erased, and the bullet that slides into its slot
      is passed over, kept exactly as it was (neither moved nor removed, active
      or not). */
  function Sweep(done: seq<Bullet>, rest: seq<Bullet>): seq<Bullet>
    decreases |rest|
  {
    if rest == [] then done
    else
      var b := StepBullet(rest[0]);
      if b.active then Sweep(done + [b], rest[1..])
      else if |rest| == 1 then done
      else Sweep(done + [rest[1]], rest[2..])
  }

  /** The sweep of a whole list. */
  function SweepBullets(bs: seq<Bullet>): seq<Bullet>
  {
    Sweep([], bs)
  }

  /** The sweep leaves the passed part as it is, never lengthens the list, keeps
      every bullet's size, and every inactive bullet it leaves behind was
      already in the list, untouched: a bullet retired by its own step is
      always removed. */
  lemma {:induction false} SweepShape(done: seq<Bullet>, rest: seq<Bullet>)
    ensures |done| <= |Sweep(done, rest)| <= |done| + |rest|
    ensures Sweep(done, rest)[..|done|] == done
    ensures (forall k :: 0 <= k < |done| ==> BulletInv(done[k])) &&
            (forall k :: 0 <= k < |rest| ==> BulletInv(rest[k])) ==>
              forall k :: 0 <= k < |Sweep(done, rest)| ==> BulletInv(Sweep(done, rest)[k])
    ensures forall x :: x in Sweep(done, rest) && !x.active ==> x in done || x in rest
    decreases |rest|
  {
    if rest != [] {
      var b := StepBullet(rest[0]);
      if b.active {
        SweepShape(done + [b], rest[1..]);
        var r := Sweep(done + [b], rest[1..]);
        assert r[..|done|] == (done + [b])[..|done|];
        assert forall x :: x in rest[1..] ==> x in rest;
      } else if |rest| > 1 {
        SweepShape(done + [rest[1]], rest[2..]);
        var r := Sweep(done + [rest[1]], rest[2..]);
        assert r[..|done|] == (done + [rest[1]])[..|done|];
        assert forall x :: x in rest[2..] ==> x in rest;
        assert forall k :: 0 <= k < |rest| - 2 ==> rest[2..][k] == rest[k + 2];
      }
    }
  }

  /** The sweep of a whole list: no longer than it, and the invariants above. */
  lemma SweepBulletsShape(bs: seq<Bullet>)
    ensures |SweepBullets(bs)| <= |bs|
    ensures (forall k :: 0 <= k < |bs| ==> BulletInv(bs[k])) ==>
              forall k :: 0 <= k < |SweepBullets(bs)| ==> BulletInv(SweepBullets(bs)[k])
    ensures forall x :: x in SweepBullets(bs) && !x.active ==> x in bs
  {
    SweepShape([], bs);
  }

  /** When no step retires a bullet, nothing is erased or skipped and the sweep
      is just every bullet stepped once. */
  lemma {:induction false} SweepWithoutRetirement(done: seq<Bullet>, rest: seq<Bullet>)
    requires forall k :: 0 <= k < |rest| ==> StepBullet(rest[k]).active
    ensures |Sweep(done, rest)| == |done| + |rest|
    ensures forall k :: 0 <= k < |rest| ==> Sweep(done, rest)[|done| + k] == StepBullet(rest[k])
    decreases |rest|
  {
    if rest != [] {
      var b := StepBullet(rest[0]);
      SweepWithoutRetirement(done + [b], rest[1..]);
      SweepShape(done + [b], rest[1..]);
      var r := Sweep(done + [b], rest[1..]);
      assert r[..|done| + 1] == done + [b];
      assert r[|done|] == (done + [b])[|done|];
    }
  }

  /** The skip: after a bullet that its step retires, the next bullet is kept
      as it was, and the sweep resumes with the one after it. */
  lemma SweepSkipsSuccessor(done: seq<Bullet>, b: Bullet, next: Bullet, rest: seq<Bullet>)
    requires !StepBullet(b).active
    ensures Sweep(done, [b, next] + rest) == Sweep(done + [next], rest)
    ensures |Sweep(done, [b, next] + rest)| > |done| && Sweep(done, [b, next] + rest)[|done|] == next
  {
    var bs := [b, next] + rest;
    assert bs[0] == b && bs[1] == next && bs[2..] == rest;
    SweepShape(done + [next], rest);
    var r := Sweep(done + [next], rest);
    assert r[|done|] == r[..|done| + 1][|done|];
  }

  // ---------------------------------------------------------------- enemies

  /** The outcome of the enemy sweep: the new list, and how many random rolls
      were used so far. */
  datatype EnemySweep = EnemySweep(enemies: seq<Enemy>, drawn: nat)

  /** The enemy sweep over a list split into the part already passed (`done`)
      and the part still to visit (`rest`), with `k` rolls used. Each visited
      enemy is stepped; one that the step retires is erased, a new enemy from
      the next roll is appended at the end, and the enemy that slides into the
      erased slot is passed over unchanged. Because every erase is paired with
      an append, the loop index always equals `|done|`, and enemies appended
      this frame are themselves visited when the loop reaches them. */
  function EnemyPass(c: Config, done: seq<Enemy>, rest: seq<Enemy>, rng: nat -> SpawnRoll, k: nat): EnemySweep
    decreases |rest|
  {
    if rest == [] then EnemySweep(done, k)
    else
      var e := StepEnemy(rest[0]);
      if e.active then EnemyPass(c, done + [e], rest[1..], rng, k)
      else
        var q := rest[1..] + [NewEnemy(c, rng(k))];
        EnemyPass(c, done + [q[0]], q[1..], rng, k + 1)
  }

  /** The enemy sweep keeps the number of enemies, leaves the visited prefix as
      it is, and draws at most one roll per slot it visits. */
  lemma {:induction false} EnemyPassShape(c: Config, done: seq<Enemy>, rest: seq<Enemy>, rng: nat -> SpawnRoll, k: nat)
    ensures |EnemyPass(c, done, rest, rng, k).enemies| == |done| + |rest|
    ensures EnemyPass(c, done, rest, rng, k).enemies[..|done|] == done
    ensures k <= EnemyPass(c, done, rest, rng, k).drawn <= k + |rest|
    decreases |rest|
  {
    if rest != [] {
      var e := StepEnemy(rest[0]);
      if e.active {
        EnemyPassShape(c, done + [e], rest[1..], rng, k);
        var r := EnemyPass(c, done + [e], rest[1..], rng, k).enemies;
        assert r[..|done|] == (done + [e])[..|done|];
      } else {
        var q := rest[1..] + [NewEnemy(c, rng(k))];
        EnemyPassShape(c, done + [q[0]], q[1..], rng, k + 1);
        var r := EnemyPass(c, done + [q[0]], q[1..], rng, k + 1).enemies;
        assert r[..|done|] == (done + [q[0]])[..|done|];
      }
    }
  }

  /** The enemy sweep keeps every enemy inside the invariant: in the spawn
      range, not past the bottom of the screen, with one of the four images. */
  lemma {:induction false} EnemyPassKeepsInv(c: Config, done: seq<Enemy>, rest: seq<Enemy>, rng: nat -> SpawnRoll, k: nat)
    requires forall j :: 0 <= j < |done| ==> EnemyInv(c, done[j])
    requires forall j :: 0 <= j < |rest| ==> EnemyInv(c, rest[j])
    ensures forall j :: 0 <= j < |EnemyPass(c, done, rest, rng, k).enemies| ==>
              EnemyInv(c, EnemyPass(c, done, rest, rng, k).enemies[j])
    decreases |rest|
  {
    if rest != [] {
      var e := StepEnemy(rest[0]);
      if e.active {
        EnemyPassKeepsInv(c, done + [e], rest[1..], rng, k);
      } else {
        var n := NewEnemy(c, rng(k));
        var q := rest[1..] + [n];
        assert forall j :: 0 <= j < |q| ==> q[j] == n || q[j] == rest[j + 1];
        EnemyPassKeepsInv(c, done + [q[0]], q[1..], rng, k + 1);
      }
    }
  }

  /** Every inactive enemy the sweep leaves behind was already in the list: an
      enemy retired by its own step is always erased. */
  lemma {:induction false} EnemyPassLingering(c: Config, done: seq<Enemy>, rest: seq<Enemy>, rng: nat -> SpawnRoll, k: nat)
    ensures forall x :: x in EnemyPass(c, done, rest, rng, k).enemies && !x.active ==> x in done || x in rest
    decreases |rest|
  {
    if rest != [] {
      var e := StepEnemy(rest[0]);
      if e.active {
        EnemyPassLingering(c, done + [e], rest[1..], rng, k);
        assert forall x :: x in rest[1..] ==> x in rest;
      } else {
        var n := NewEnemy(c, rng(k));
        var q := rest[1..] + [n];
        EnemyPassLingering(c, done + [q[0]], q[1..], rng, k + 1);
        assert forall j :: 0 <= j < |q| ==> q[j] == n || q[j] == rest[j + 1];
        assert forall x :: x in q ==> x == n || x in rest;
        assert forall x :: x in q[1..] ==> x in q;
      }
    }
  }

  /** When no step retires an enemy, nothing is erased, spawned or skipped: the
      sweep is every enemy stepped once and no roll is used. */
  lemma {:induction false} EnemyPassWithoutRetirement(c: Config, done: seq<Enemy>, rest: seq<Enemy>, rng: nat -> SpawnRoll, k: nat)
    requires forall j :: 0 <= j < |rest| ==> StepEnemy(rest[j]).active
    ensures EnemyPass(c, done, rest, rng, k).drawn == k
    ensures |EnemyPass(c, done, rest, rng, k).enemies| == |done| + |rest|
    ensures forall j :: 0 <= j < |rest| ==> EnemyPass(c, done, rest, rng, k).enemies[|done| + j] == StepEnemy(rest[j])
    decreases |rest|
  {
    if rest != [] {
      EnemyPassWithoutRetirement(c, done + [StepEnemy(rest[0])], rest[1..], rng, k);
      EnemyPassShape(c, done + [StepEnemy(rest[0])], rest[1..], rng, k);
      var r := EnemyPass(c, done + [StepEnemy(rest[0])], rest[1..], rng, k).enemies;
      assert r[..|done| + 1] == done + [StepEnemy(rest[0])];
      assert r[|done|] == (done + [StepEnemy(rest[0])])[|done|];
    }
  }

  /** The skip: after an enemy that its step retires, the next enemy is passed
      over unchanged and the new enemy joins the part still to visit. */
  lemma EnemyPassSkipsSuccessor(c: Config, done: seq<Enemy>, e: Enemy, next: Enemy, rest: seq<Enemy>, rng: nat -> SpawnRoll, k: nat)
    requires !StepEnemy(e).active
    ensures EnemyPass(c, done, [e, next] + rest, rng, k) ==
            EnemyPass(c, done + [next], rest + [NewEnemy(c, rng(k))], rng, k + 1)
    ensures |EnemyPass(c, done, [e, next] + rest, rng, k).enemies| > |done| &&
            EnemyPass(c, done, [e, next] + rest, rng, k).enemies[|done|] == next
  {
    var rs := [e, next] + rest;
    var q := rs[1..] + [NewEnemy(c, rng(k))];
    assert q[0] == next && q[1..] == rest + [NewEnemy(c, rng(k))];
    EnemyPassShape(c, done + [next], q[1..], rng, k + 1);
    var r := EnemyPass(c, done + [next], q[1..], rng, k + 1).enemies;
    assert r[|done|] == r[..|done| + 1][|done|];
  }

  /** The first `n` enemies spawned from the rolls `rng(0)`, ..., `rng(n - 1)`. */
  function Spawns(c: Config, rng: nat -> SpawnRoll, n: nat): (es: seq<Enemy>)
    ensures |es| == n
    ensures forall j :: 0 <= j < n ==> es[j] == NewEnemy(c, rng(j))
    ensures forall j :: 0 <= j < n ==> es[j].active && EnemyInv(c, es[j]) && es[j].y <= SpawnMaxY as real
  {
    if n == 0 then [] else Spawns(c, rng, n - 1) + [NewEnemy(c, rng(n - 1))]
  }

  // ----------------------------------------------------- bullets vs enemies

  /** The outcome of testing one bullet against every enemy. */
  datatype Row = Row(bullet: Bullet, enemies: seq<Enemy>, hits: nat)

  /** One bullet against the enemies, in order: the first enemy that is active
      and overlaps an active bullet is hit; both retire and one point is scored.
      After that the bullet is inactive and can hit nothing more. */
  function HitRow(b: Bullet, es: seq<Enemy>, collide: (Rect, Rect) -> bool): Row
    decreases |es|
  {
    if es == [] then Row(b, [], 0)
    else if collide(b.rect, EnemyRect(es[0])) && b.active && es[0].active then
      Row(b.(active := false), [es[0].(active := false)] + es[1..], 1)
    else
      var r := HitRow(b, es[1..], collide);
      Row(r.bullet, [es[0]] + r.enemies, r.hits)
  }

  /** An inactive bullet hits nothing and changes nothing. */
  lemma {:induction false} InactiveRow(b: Bullet, es: seq<Enemy>, collide: (Rect, Rect) -> bool)
    requires !b.active
    ensures HitRow(b, es, collide) == Row(b, es, 0)
    decreases |es|
  {
    if es != [] {
      InactiveRow(b, es[1..], collide);
      assert [es[0]] + es[1..] == es;
    }
  }

  /** One visit of the row, as the loop that runs it sees it. */
  lemma RowStep(b: Bullet, es: seq<Enemy>, collide: (Rect, Rect) -> bool)
    requires es != []
    ensures collide(b.rect, EnemyRect(es[0])) && b.active && es[0].active ==>
              HitRow(b, es, collide) == Row(b.(active := false), [es[0].(active := false)] + es[1..], 1)
    ensures !(collide(b.rect, EnemyRect(es[0])) && b.active && es[0].active) ==>
              var r := HitRow(b, es[1..], collide);
              HitRow(b, es, collide) == Row(r.bullet, [es[0]] + r.enemies, r.hits)
  {
  }

  /** A row scores at most once, and only by retiring the (active) bullet and
      exactly one active enemy; every other enemy is left as it was. */
  lemma {:induction false} RowFacts(b: Bullet, es: seq<Enemy>, collide: (Rect, Rect) -> bool)
    ensures |HitRow(b, es, collide).enemies| == |es|
    ensures HitRow(b, es, collide).hits <= 1
    ensures HitRow(b, es, collide).bullet ==
              if HitRow(b, es, collide).hits == 1 then b.(active := false) else b
    ensures HitRow(b, es, collide).hits == 1 ==> b.active
    ensures forall j :: 0 <= j < |es| ==>
              HitRow(b, es, collide).enemies[j] == es[j] ||
              (es[j].active && HitRow(b, es, collide).enemies[j] == es[j].(active := false))
    ensures ActiveEnemies(es) == ActiveEnemies(HitRow(b, es, collide).enemies) + HitRow(b, es, collide).hits
    decreases |es|
  {
    if es != [] {
      var r := HitRow(b, es, collide);
      if collide(b.rect, EnemyRect(es[0])) && b.active && es[0].active {
        assert r.enemies[1..] == es[1..];
      } else {
        RowFacts(b, es[1..], collide);
        assert r.enemies[1..] == HitRow(b, es[1..], collide).enemies;
      }
    }
  }

  /** A row scores exactly when the bullet is active and overlaps some active
      enemy. */
  lemma {:induction false} RowScores(b: Bullet, es: seq<Enemy>, collide: (Rect, Rect) -> bool)
    ensures HitRow(b, es, collide).hits == 1 <==>
              b.active && exists j :: 0 <= j < |es| && es[j].active && collide(b.rect, EnemyRect(es[j]))
    decreases |es|
  {
    if es != [] && !(collide(b.rect, EnemyRect(es[0])) && b.active && es[0].active) {
      RowScores(b, es[1..], collide);
      if b.active && exists j :: 0 <= j < |es| && es[j].active && collide(b.rect, EnemyRect(es[j])) {
        var j :| 0 <= j < |es| && es[j].active && collide(b.rect, EnemyRect(es[j]));
        assert es[1..][j - 1] == es[j];
      }
      if b.active && exists j :: 0 <= j < |es[1..]| && es[1..][j].active && collide(b.rect, EnemyRect(es[1..][j])) {
        var j :| 0 <= j < |es[1..]| && es[1..][j].active && collide(b.rect, EnemyRect(es[1..][j]));
        assert es[j + 1] == es[1..][j];
      }
    }
  }

  /** The enemy a row retires is the first one the active bullet overlaps: every
      enemy it changes is active and overlapped, and no earlier one is. */
  lemma {:induction false} RowHitsFirst(b: Bullet, es: seq<Enemy>, collide: (Rect, Rect) -> bool)
    ensures |HitRow(b, es, collide).enemies| == |es|
    ensures forall j :: 0 <= j < |es| && HitRow(b, es, collide).enemies[j] != es[j] ==>
              b.active && es[j].active && collide(b.rect, EnemyRect(es[j])) &&
              forall i :: 0 <= i < j ==> !(es[i].active && collide(b.rect, EnemyRect(es[i])))
    decreases |es|
  {
    if es != [] {
      var r := HitRow(b, es, collide);
      if collide(b.rect, EnemyRect(es[0])) && b.active && es[0].active {
        assert r.enemies[1..] == es[1..];
      } else {
        var t := HitRow(b, es[1..], collide);
        RowHitsFirst(b, es[1..], collide);
        assert r.enemies == [es[0]] + t.enemies;
        forall j | 0 <= j < |es| && r.enemies[j] != es[j]
          ensures b.active && es[j].active && collide(b.rect, EnemyRect(es[j])) &&
                  forall i :: 0 <= i < j ==> !(es[i].active && collide(b.rect, EnemyRect(es[i])))
        {
          assert j > 0 && t.enemies[j - 1] != es[1..][j - 1];
        }
      }
    }
  }

  /** The outcome of the whole bullet-versus-enemy pass. */
  datatype Hits = Hits(bullets: seq<Bullet>, enemies: seq<Enemy>, count: nat)

  /** Every bullet, in order, against every enemy (as left by the earlier bullets). */
  function HitPass(bs: seq<Bullet>, es: seq<Enemy>, collide: (Rect, Rect) -> bool): Hits
    decreases |bs|
  {
    if bs == [] then Hits([], es, 0)
    else
      var r := HitRow(bs[0], es, collide);
      var t := HitPass(bs[1..], r.enemies, collide);
      Hits([r.bullet] + t.bullets, t.enemies, r.hits + t.count)
  }

  /** The hit pass only retires entities that were active (nothing moves, nothing
      revives), and the score it adds equals both the number of bullets and the
      number of enemies it retired, so each entity scores at most once and the
      score grows by at most the smaller of the two active counts. */
  lemma {:induction false} HitPassFacts(bs: seq<Bullet>, es: seq<Enemy>, collide: (Rect, Rect) -> bool)
    ensures |HitPass(bs, es, collide).bullets| == |bs|
    ensures |HitPass(bs, es, collide).enemies| == |es|
    ensures forall k :: 0 <= k < |bs| ==>
              HitPass(bs, es, collide).bullets[k] == bs[k] ||
              (bs[k].active && HitPass(bs, es, collide).bullets[k] == bs[k].(active := false))
    ensures forall j :: 0 <= j < |es| ==>
              HitPass(bs, es, collide).enemies[j] == es[j] ||
              (es[j].active && HitPass(bs, es, collide).enemies[j] == es[j].(active := false))
    ensures ActiveBullets(bs) == ActiveBullets(HitPass(bs, es, collide).bullets) + HitPass(bs, es, collide).count
    ensures ActiveEnemies(es) == ActiveEnemies(HitPass(bs, es, collide).enemies) + HitPass(bs, es, collide).count
    ensures HitPass(bs, es, collide).count <= ActiveBullets(bs)
    ensures HitPass(bs, es, collide).count <= ActiveEnemies(es)
    decreases |bs|
  {
    if bs != [] {
      var r := HitRow(bs[0], es, collide);
      RowFacts(bs[0], es, collide);
      HitPassFacts(bs[1..], r.enemies, collide);
      var h := HitPass(bs, es, collide);
      var t := HitPass(bs[1..], r.enemies, collide);
      assert h.bullets[1..] == t.bullets;
      assert h.bullets[0] == r.bullet;
    }
  }

  /** The hit pass retires only entities that overlapped an active partner, and
      it misses nothing: afterwards no active bullet overlaps an active enemy. */
  lemma {:induction false} HitPassOverlap(bs: seq<Bullet>, es: seq<Enemy>, collide: (Rect, Rect) -> bool)
    ensures |HitPass(bs, es, collide).bullets| == |bs|
    ensures |HitPass(bs, es, collide).enemies| == |es|
    ensures forall k :: 0 <= k < |bs| && HitPass(bs, es, collide).bullets[k] != bs[k] ==>
              exists j :: 0 <= j < |es| && es[j].active && collide(bs[k].rect, EnemyRect(es[j]))
    ensures forall j :: 0 <= j < |es| && HitPass(bs, es, collide).enemies[j] != es[j] ==>
              exists k :: 0 <= k < |bs| && bs[k].active && collide(bs[k].rect, EnemyRect(es[j]))
    ensures forall k, j ::
              (0 <= k < |bs| && 0 <= j < |es| &&
               HitPass(bs, es, collide).bullets[k].active && HitPass(bs, es, collide).enemies[j].active) ==>
                !collide(bs[k].rect, EnemyRect(HitPass(bs, es, collide).enemies[j]))
    decreases |bs|
  {
    HitPassFacts(bs, es, collide);
    if bs != [] {
      var r := HitRow(bs[0], es, collide);
      var h := HitPass(bs, es, collide);
      var t := HitPass(bs[1..], r.enemies, collide);
      RowFacts(bs[0], es, collide);
      RowScores(bs[0], es, collide);
      RowHitsFirst(bs[0], es, collide);
      HitPassFacts(bs[1..], r.enemies, collide);
      HitPassOverlap(bs[1..], r.enemies, collide);
      assert h.bullets == [r.bullet] + t.bullets && h.enemies == t.enemies;
      forall k | 0 <= k < |bs| && h.bullets[k] != bs[k]
        ensures exists j :: 0 <= j < |es| && es[j].active && collide(bs[k].rect, EnemyRect(es[j]))
      {
        if k > 0 {
          assert t.bullets[k - 1] != bs[1..][k - 1];
          var j :| 0 <= j < |r.enemies| && r.enemies[j].active && collide(bs[k].rect, EnemyRect(r.enemies[j]));
          assert r.enemies[j] == es[j];
        }
      }
      forall j | 0 <= j < |es| && h.enemies[j] != es[j]
        ensures exists k :: 0 <= k < |bs| && bs[k].active && collide(bs[k].rect, EnemyRect(es[j]))
      {
        if r.enemies[j] != es[j] {
          assert bs[0].active && collide(bs[0].rect, EnemyRect(es[j]));
        } else {
          var k :| 0 <= k < |bs[1..]| && bs[1..][k].active && collide(bs[1..][k].rect, EnemyRect(r.enemies[j]));
          assert bs[k + 1] == bs[1..][k];
        }
      }
      forall k, j | 0 <= k < |bs| && 0 <= j < |es| && h.bullets[k].active && h.enemies[j].active
        ensures !collide(bs[k].rect, EnemyRect(h.enemies[j]))
      {
        if k == 0 {
          assert r.enemies[j].active && h.enemies[j] == r.enemies[j] && r.enemies[j] == es[j];
        } else {
          assert t.bullets[k - 1] == h.bullets[k] && bs[1..][k - 1] == bs[k];
        }
      }
    }
  }

  // ------------------------------------------------------ player vs enemies

  /** The outcome of the player-versus-enemy pass. */
  datatype Crashes = Crashes(enemies: seq<Enemy>, count: nat)

  /** Every enemy, in order, against the player's rectangle: each active enemy
      that overlaps it retires and costs one life. */
  function CrashPass(rec: Rect, es: seq<Enemy>, collide: (Rect, Rect) -> bool): Crashes
    decreases |es|
  {
    if es == [] then Crashes([], 0)
    else
      var t := CrashPass(rec, es[1..], collide);
      if collide(rec, EnemyRect(es[0])) && es[0].active then
        Crashes([es[0].(active := false)] + t.enemies, t.count + 1)
      else
        Crashes([es[0]] + t.enemies, t.count)
  }

  /** One visit of the crash pass, as the loop that runs it sees it. */
  lemma CrashStep(rec: Rect, es: seq<Enemy>, collide: (Rect, Rect) -> bool)
    requires es != []
    ensures var t := CrashPass(rec, es[1..], collide);
            var hit := collide(rec, EnemyRect(es[0])) && es[0].active;
            CrashPass(rec, es, collide) ==
              Crashes([if hit then es[0].(active := false) else es[0]] + t.enemies, if hit then t.count + 1 else t.count)
  {
  }

  /** Exactly the active enemies that overlap the player retire, and the number
      of lives lost is the number of enemies retired. */
  lemma {:induction false} CrashFacts(rec: Rect, es: seq<Enemy>, collide: (Rect, Rect) -> bool)
    ensures |CrashPass(rec, es, collide).enemies| == |es|
    ensures forall j :: 0 <= j < |es| ==>
              CrashPass(rec, es, collide).enemies[j] ==
                if collide(rec, EnemyRect(es[j])) && es[j].active then es[j].(active := false) else es[j]
    ensures ActiveEnemies(es) == ActiveEnemies(CrashPass(rec, es, collide).enemies) + CrashPass(rec, es, collide).count
    ensures CrashPass(rec, es, collide).count <= ActiveEnemies(es)
    decreases |es|
  {
    if es != [] {
      CrashFacts(rec, es[1..], collide);
      var r := CrashPass(rec, es, collide);
      assert r.enemies[1..] == CrashPass(rec, es[1..], collide).enemies;
    }
  }
}
