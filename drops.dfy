/** The value `null` of a JavaScript field that is either unset or holds a number. */
module Optional {
  datatype Option<T> = None | Some(value: T)
}

/**
 * The raindrop buffer of the interactive background, as values: what one drop
 * is, how a fresh one is made from random numbers, how the bounded FIFO array
 * grows, how one Euler step moves a drop, and what a whole frame of
 * `updateDrops` leaves in the array. The class in InteractiveBackground is
 * proved against these functions.
 */
module Drops {
  import opened Optional

  /** Cap on the number of drops kept in the array. */
  const MAX_DROPS: nat := 180

  /** Number of drops `initDrops` spawns: the loop runs while `i < MAX_DROPS / 3`. */
  const INITIAL_DROPS: nat := MAX_DROPS / 3

  /** Acceleration added to `vy` on every frame. */
  const GRAVITY: real := 0.06

  /** How far below the bottom edge a drop's tail must be before it is recycled. */
  const BOTTOM_MARGIN: real := 40.0

  /** One raindrop record: position, velocity, streak length and opacity. */
  datatype Drop = Drop(x: real, y: real, vx: real, vy: real, len: real, alpha: real)

  /**
   * The six results of `Math.random()` that one `spawnDrop` call consumes,
   * in the order the object literal evaluates its fields.
   */
  datatype Draw = Draw(rx: real, ry: real, rvx: real, rvy: real, rlen: real, ralpha: real) {
    /** `Math.random()` returns a value in [0, 1). */
    predicate Valid() {
      Unit(rx) && Unit(ry) && Unit(rvx) && Unit(rvy) && Unit(rlen) && Unit(ralpha)
    }
  }

  predicate Unit(u: real) {
    0.0 <= u < 1.0
  }

  predicate AllValid(draws: seq<Draw>) {
    forall r :: r in draws ==> r.Valid()
  }

  /** Any slice of valid draws is valid. */
  lemma AllValidSlice(draws: seq<Draw>, a: nat, b: nat)
    requires AllValid(draws) && a <= b <= |draws|
    ensures AllValid(draws[a..b])
  {
    forall r | r in draws[a..b] ensures r.Valid() {
      var i :| 0 <= i < b - a && draws[a..b][i] == r;
      assert draws[a + i] == r;
    }
  }

  function Min(a: int, b: int): int {
    if a <= b then a else b
  }

  function Max(a: int, b: int): int {
    if a <= b then b else a
  }

  /** A product with a positive factor has the sign of the other factor. */
  lemma ProductSign(a: real, b: real)
    requires 0.0 < b
    ensures a * b > 0.0 <==> a > 0.0
    ensures a * b < 0.0 <==> a < 0.0
  {
    if a > 0.0 {
      assert a * b > 0.0;
    } else if a < 0.0 {
      assert (-a) * b > 0.0;
    }
  }

  /** Scaling a value in [0, 1) by `w` lands in [0, w), or on 0 when `w` is 0. */
  lemma ScaleUnit(u: real, w: real)
    requires Unit(u) && 0.0 <= w
    ensures 0.0 <= u * w <= w && (0.0 < w ==> u * w < w)
  {
    if 0.0 < w {
      ProductSign(1.0 - u, w);
      ProductSign(u, w);
      assert (1.0 - u) * w == w - u * w;
    }
  }

  /**
   * The record `spawnDrop` pushes. Each field lies in the half-open range its
   * random expression can reach: it starts somewhere across the width, just
   * above the top edge, with a small sideways drift and a downward speed.
   */
  function MakeDrop(r: Draw, width: real): (d: Drop)
    requires r.Valid() && 0.0 <= width
    ensures 0.0 <= d.x <= width && (0.0 < width ==> d.x < width)
    ensures -210.0 < d.y <= -10.0
    ensures -0.3 <= d.vx < 0.3
    ensures 2.0 <= d.vy < 6.0
    ensures 8.0 <= d.len < 26.0
    ensures 0.25 <= d.alpha < 0.85
  {
    ScaleUnit(r.rx, width);
    Drop(r.rx * width,
         -10.0 - r.ry * 200.0,
         (r.rvx - 0.5) * 0.6,
         2.0 + r.rvy * 4.0,
         8.0 + r.rlen * 18.0,
         0.25 + r.ralpha * 0.6)
  }

  /**
   * The array after `spawnDrop` pushed `d`: one longer, unless the push took
   * it over the cap and the oldest drop was shifted out.
   */
  function Push(s: seq<Drop>, d: Drop): (r: seq<Drop>)
    ensures |r| == if |s| < MAX_DROPS then |s| + 1 else |s|
  {
    var pushed := s + [d];
    if |pushed| > MAX_DROPS then pushed[1..] else pushed
  }

  /**
   * `Push` is a FIFO step: `d` becomes the newest (last) drop, and the others
   * are the newest drops of `s`, in order, so at most the oldest is lost.
   */
  lemma PushFifo(s: seq<Drop>, d: Drop)
    ensures var r := Push(s, d);
      && r[|r| - 1] == d
      && r[..|r| - 1] == s[|s| + 1 - |r|..]
      && (|s| < MAX_DROPS ==> r == s + [d])
  {
    var r := Push(s, d);
    if |s| + 1 > MAX_DROPS {
      assert r == (s + [d])[1..];
      assert r[..|r| - 1] == s[1..];
    } else {
      assert r[..|r| - 1] == s;
    }
  }

  /**
   * The array after pushing every drop of `ds` in turn: it grows by `|ds|`
   * up to the cap (an array already over the cap keeps its length).
   */
  function PushAll(s: seq<Drop>, ds: seq<Drop>): (r: seq<Drop>)
    ensures |r| == if |s| + |ds| <= MAX_DROPS then |s| + |ds| else Max(|s|, MAX_DROPS)
  {
    if ds == [] then s
    else Push(PushAll(s, ds[..|ds| - 1]), ds[|ds| - 1])
  }

  /**
   * Pushing a batch keeps exactly the newest drops: the result is the suffix
   * of `s + ds` of the length `PushAll` allows.
   */
  lemma {:induction false} PushAllSuffix(s: seq<Drop>, ds: seq<Drop>)
    ensures var r := PushAll(s, ds); r == (s + ds)[|s| + |ds| - |r|..]
  {
    if ds == [] {
      assert s + ds == s;
    } else {
      var init := ds[..|ds| - 1];
      var last := ds[|ds| - 1];
      PushAllSuffix(s, init);
      var p := PushAll(s, init);
      PushFifo(p, last);
      var r := Push(p, last);
      assert s + ds == (s + init) + [last];
      var off := |s| + |ds| - |r|;
      assert r == r[..|r| - 1] + [last];
      assert p[|p| + 1 - |r|..] == (s + init)[off..];
      assert r[..|r| - 1] == (s + init)[off..];
    }
  }

  /** Pushing one more drop after a batch is pushing the longer batch. */
  lemma PushAllNext(s: seq<Drop>, ds: seq<Drop>, d: Drop)
    ensures PushAll(s, ds + [d]) == Push(PushAll(s, ds), d)
  {
    assert (ds + [d])[..|ds|] == ds;
  }

  /** A batch that fits under the cap is appended whole. */
  lemma PushAllWithinCap(s: seq<Drop>, ds: seq<Drop>)
    requires |s| + |ds| <= MAX_DROPS
    ensures PushAll(s, ds) == s + ds
  {
    PushAllSuffix(s, ds);
  }

  /** The drops made from `draws`, one per draw, in order. */
  function Spawned(draws: seq<Draw>, width: real): (r: seq<Drop>)
    requires AllValid(draws) && 0.0 <= width
    ensures |r| == |draws|
  {
    if draws == [] then []
    else Spawned(draws[..|draws| - 1], width) + [MakeDrop(draws[|draws| - 1], width)]
  }

  /** Spawning from one more draw appends the drop made from it. */
  lemma SpawnedPrefixNext(draws: seq<Draw>, width: real, i: nat)
    requires AllValid(draws) && 0.0 <= width && i < |draws|
    ensures AllValid(draws[..i]) && AllValid(draws[..i + 1]) && draws[i].Valid()
    ensures Spawned(draws[..i + 1], width) == Spawned(draws[..i], width) + [MakeDrop(draws[i], width)]
  {
    AllValidSlice(draws, 0, i);
    AllValidSlice(draws, 0, i + 1);
    assert draws[0..i] == draws[..i] && draws[0..i + 1] == draws[..i + 1];
    assert draws[..i + 1][..i] == draws[..i];
  }

  /** The `j`-th spawned drop is the one made from the `j`-th draw. */
  lemma {:induction false} SpawnedAt(draws: seq<Draw>, width: real, j: nat)
    requires AllValid(draws) && 0.0 <= width && j < |draws|
    ensures Spawned(draws, width)[j] == MakeDrop(draws[j], width)
  {
    if j < |draws| - 1 {
      SpawnedAt(draws[..|draws| - 1], width, j);
    }
  }

  /**
   * How many drops a frame spawns for `delta` milliseconds since the last
   * frame: `floor(delta * 0.06)` clamped to 0..3. None below 50/3 ms (one
   * frame at 60 Hz), negative deltas included, and the full three from 50 ms.
   */
  function SpawnCount(delta: real): (n: nat)
    ensures n <= 3
    ensures n == 0 <==> delta < 50.0 / 3.0
    ensures n == 3 <==> delta >= 50.0
  {
    Min(3, Max(0, (delta * 0.06).Floor))
  }

  /**
   * The wind strength for a pointer at `p`: its offset from the horizontal
   * centre as a fraction of the width, scaled by 0.02.
   */
  function Wind(p: real, width: real): real
    requires width != 0.0
  {
    (p - width / 2.0) / width * 0.02
  }

  /**
   * Change of `vx` per frame caused by the pointer: nothing until a pointer
   * position has been recorded, otherwise a fiftieth of the wind.
   */
  function WindPush(px: Option<real>, width: real): real
    requires px.Some? ==> width != 0.0
  {
    match px
    case None => 0.0
    case Some(p) => Wind(p, width) * 0.02
  }

  /**
   * The wind pushes drops towards the side the pointer is on, never when no
   * pointer position is known, and by at most 0.0002 per frame while the
   * pointer is within the canvas.
   */
  lemma WindDirection(px: Option<real>, width: real)
    requires 0.0 < width
    ensures WindPush(px, width) > 0.0 <==> px.Some? && px.value > width / 2.0
    ensures WindPush(px, width) < 0.0 <==> px.Some? && px.value < width / 2.0
    ensures px.Some? && 0.0 <= px.value <= width ==> -0.0002 <= WindPush(px, width) <= 0.0002
  {
    if px.Some? {
      var a := px.value - width / 2.0;
      var q := a / width;
      assert q * width == a;
      assert WindPush(px, width) == q * 0.0004;
      ProductSign(q, width);
      if 0.0 <= px.value <= width {
        var lo, hi := q + 0.5, q - 0.5;
        assert lo * width == q * width + 0.5 * width;
        assert hi * width == q * width - 0.5 * width;
        ProductSign(lo, width);
        ProductSign(hi, width);
        assert lo * width >= 0.0 && hi * width <= 0.0;
      }
    }
  }

  /**
   * One frame of Euler integration of a drop under a wind push `push`:
   * `vy` gains the gravity step before `y` moves, so `y` advances by the new
   * `vy`; `x` advances by the old `vx`; only afterwards does the wind change
   * `vx`. Length and opacity never change.
   */
  function Step(d: Drop, push: real): (e: Drop)
    ensures e.vy - d.vy == GRAVITY
    ensures e.y - d.y == d.vy + GRAVITY
    ensures e.x - d.x == d.vx
    ensures e.vx - d.vx == push
    ensures e.len == d.len && e.alpha == d.alpha
  {
    var falling := d.(vy := d.vy + GRAVITY);
    var moved := falling.(x := falling.x + falling.vx, y := falling.y + falling.vy);
    moved.(vx := moved.vx + push)
  }

  /** The tail of the streak is more than 40 px below the bottom edge. */
  predicate Fallen(d: Drop, height: real) {
    d.y - d.len > height + BOTTOM_MARGIN
  }

  /** Number of drops of `t` that have fallen off the screen after their step. */
  function FallenCount(t: seq<Drop>, push: real, height: real): (n: nat)
    ensures n <= |t|
  {
    if t == [] then 0
    else (if Fallen(Step(t[0], push), height) then 1 else 0) + FallenCount(t[1..], push, height)
  }

  /**
   * The stepped drops of `t` that are still on screen, in their original
   * order. Together with the fallen ones they account for every drop of `t`.
   */
  function Survivors(t: seq<Drop>, push: real, height: real): (r: seq<Drop>)
    ensures |r| + FallenCount(t, push, height) == |t|
  {
    if t == [] then []
    else
      var e := Step(t[0], push);
      (if Fallen(e, height) then [] else [e]) + Survivors(t[1..], push, height)
  }

  /** No drop kept by `Survivors` is below the screen. */
  lemma {:induction false} SurvivorsStanding(t: seq<Drop>, push: real, height: real)
    ensures forall d :: d in Survivors(t, push, height) ==> !Fallen(d, height)
  {
    if t != [] {
      SurvivorsStanding(t[1..], push, height);
    }
  }

  /** A freshly spawned drop starts above the screen, so it has not fallen. */
  lemma SpawnedStanding(draws: seq<Draw>, width: real, height: real)
    requires AllValid(draws) && 0.0 <= width && 0.0 <= height
    ensures forall d :: d in Spawned(draws, width) ==> !Fallen(d, height)
  {
    var r := Spawned(draws, width);
    forall d | d in r ensures !Fallen(d, height) {
      var j :| 0 <= j < |r| && r[j] == d;
      SpawnedAt(draws, width, j);
    }
  }

  /** Enough random draws for a frame: the spawns plus one per drop that may fall. */
  predicate FrameDraws(s: seq<Drop>, delta: real, draws: seq<Draw>) {
    AllValid(draws) && |draws| >= 2 * SpawnCount(delta) + |s|
  }

  /** The array after the spawn phase of a frame. */
  function Spawn(s: seq<Drop>, delta: real, width: real, draws: seq<Draw>): (t: seq<Drop>)
    requires FrameDraws(s, delta, draws) && 0.0 <= width
    ensures |t| <= |s| + SpawnCount(delta)
  {
    PushAll(s, Spawned(draws[..SpawnCount(delta)], width))
  }

  /**
   * The array `updateDrops(delta)` leaves behind. First `SpawnCount(delta)`
   * fresh drops are pushed; then every drop is stepped, and each one that
   * fell is removed and replaced by a fresh drop appended at the end, which
   * is not stepped in the same frame.
   */
  function Frame(s: seq<Drop>, delta: real, px: Option<real>, width: real, height: real,
                 draws: seq<Draw>): (r: seq<Drop>)
    requires FrameDraws(s, delta, draws) && 0.0 <= width && (px.Some? ==> width != 0.0)
    ensures |r| == |Spawn(s, delta, width, draws)|
  {
    var c := SpawnCount(delta);
    var push := WindPush(px, width);
    var t := Spawn(s, delta, width, draws);
    var k := FallenCount(t, push, height);
    Survivors(t, push, height) + Spawned(draws[c..c + k], width)
  }

  /**
   * Starting within the cap, a frame leaves exactly `min(180, n + spawnCount)`
   * drops, so the array stays within the cap; and for a canvas of
   * non-negative height no drop is left below the screen.
   */
  lemma FrameBounds(s: seq<Drop>, delta: real, px: Option<real>, width: real, height: real,
                    draws: seq<Draw>)
    requires FrameDraws(s, delta, draws) && 0.0 <= width && (px.Some? ==> width != 0.0)
    requires |s| <= MAX_DROPS
    ensures |Frame(s, delta, px, width, height, draws)| == Min(MAX_DROPS, |s| + SpawnCount(delta))
    ensures 0.0 <= height ==> forall d :: d in Frame(s, delta, px, width, height, draws) ==> !Fallen(d, height)
  {
    var c := SpawnCount(delta);
    var t := Spawn(s, delta, width, draws);
    var push := WindPush(px, width);
    var k := FallenCount(t, push, height);
    SurvivorsStanding(t, push, height);
    if 0.0 <= height {
      SpawnedStanding(draws[c..c + k], width, height);
    }
  }
}
