/**
 * The scrolling background: a counter that advances by the scrolling speed
 * every frame and wraps back to 0 once it reaches the texture's height.
 */
module Scrolling {
  import opened Entities

  /** One frame of the scroll counter. */
  function NextScroll(s: real, h: nat): (r: real)
    ensures r == 0.0 || r == s + ScrollingSpeed
    ensures 0.0 <= s ==> 0.0 <= r && (r < h as real || r == 0.0)
  {
    var t := s + ScrollingSpeed;
    if t >= h as real then 0.0 else t
  }

  /** The counter after `n` frames, starting from 0. */
  function ScrollAfter(h: nat, n: nat): (r: real)
    ensures 0.0 <= r && (r < h as real || r == 0.0)
  {
    if n == 0 then 0.0 else NextScroll(ScrollAfter(h, n - 1), h)
  }

  /** The number of frames in one cycle of the counter: 0, 2, 4, ... up to the
      last even value below the height. */
  function Period(h: nat): (p: nat)
    requires h >= 1
    ensures p >= 1 && 2 * p >= h && 2 * (p - 1) < h
  {
    (h + 1) / 2
  }

  /** During the first cycle the counter climbs by 2 each frame. */
  lemma {:induction false} ScrollRamp(h: nat, m: nat)
    requires h >= 1 && m < Period(h)
    ensures ScrollAfter(h, m) == (2 * m) as real
  {
    if m > 0 {
      ScrollRamp(h, m - 1);
    }
  }

  /** After one cycle the counter is back at 0 ... */
  lemma ScrollWraps(h: nat)
    requires h >= 1
    ensures ScrollAfter(h, Period(h)) == 0.0
  {
    ScrollRamp(h, Period(h) - 1);
  }

  /** ... so it repeats with that period. */
  lemma {:induction false} ScrollPeriodic(h: nat, n: nat)
    requires h >= 1
    ensures ScrollAfter(h, n + Period(h)) == ScrollAfter(h, n)
  {
    if n == 0 {
      ScrollWraps(h);
    } else {
      ScrollPeriodic(h, n - 1);
    }
  }

  /** After `q` whole cycles and `m` more frames the counter reads `2 * m`. */
  lemma {:induction false} ScrollCycles(h: nat, q: nat, m: nat)
    requires h >= 1 && m < Period(h)
    ensures ScrollAfter(h, q * Period(h) + m) == (2 * m) as real
  {
    if q == 0 {
      ScrollRamp(h, m);
    } else {
      var p := Period(h);
      assert q * p + m == ((q - 1) * p + m) + p;
      ScrollCycles(h, q - 1, m);
      ScrollPeriodic(h, (q - 1) * p + m);
    }
  }

  /** The counter after `n` frames is twice `n` modulo the period: it stays in
      [0, h) and takes every even value below `h` in turn. */
  lemma ScrollAt(h: nat, n: nat)
    requires h >= 1
    ensures ScrollAfter(h, n) == (2 * (n % Period(h))) as real
    ensures 0.0 <= ScrollAfter(h, n) < h as real
  {
    var p := Period(h);
    var q, m := n / p, n % p;
    DivMod(n, p);
    ScrollCycles(h, q, m);
  }

  /** Euclidean division of a count of frames by the period. */
  lemma DivMod(n: nat, p: nat)
    requires p >= 1
    ensures n == (n / p) * p + n % p && 0 <= n % p < p
  {
  }

  /** The background: its texture's height and the scroll counter. */
  class Background {
    const height: nat
    var scroll: real

    ghost predicate Valid()
      reads this
    {
      0.0 <= scroll && (scroll < height as real || scroll == 0.0)
    }

    constructor (height: nat)
      ensures this.height == height && scroll == 0.0 && Valid()
    {
      this.height := height;
      scroll := 0.0;
    }

    /** The counter part of drawing the background. */
    method Draw()
      requires Valid()
      modifies this
      ensures Valid()
      ensures scroll == NextScroll(old(scroll), height)
    {
      scroll := scroll + ScrollingSpeed;
      if scroll >= height as real {
        scroll := 0.0;
      }
    }
  }
}
