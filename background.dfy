/**
 * The module-level state of the interactive background script: the viewport
 * size, the pointer record and the raindrop array, with the operations that
 * change the array in place. Each method is proved to leave exactly the array
 * the functions of module Drops describe.
 */
module InteractiveBackground {
  import opened Optional
  import opened Drops
  import opened PointerState

  /** A pointer event the page may deliver before an animation frame. */
  datatype Input = NoInput | Move(e: PointerEvent, rect: Rect) | Leave

  class Background {
    var width: real
    var height: real
    const pointer: Pointer
    var drops: seq<Drop>

    /**
     * The viewport is not negative, the array never exceeds its cap, and the
     * pointer's two coordinates are recorded together.
     */
    ghost predicate Valid()
      reads this, pointer
    {
      0.0 <= width && 0.0 <= height && |drops| <= MAX_DROPS && pointer.Valid()
    }

    /**
     * The script's state once `resize` has measured a `w` by `h` viewport:
     * no drops yet, and no pointer position recorded.
     */
    constructor (w: real, h: real)
      requires 0.0 <= w && 0.0 <= h
      ensures Valid() && width == w && height == h && drops == []
      ensures fresh(pointer) && pointer.Valid()
      ensures pointer.x == None && pointer.y == None && !pointer.isActive
    {
      width, height := w, h;
      pointer := new Pointer();
      drops := [];
    }

    /**
     * `spawnDrop`: push a drop made from the draw `r`, then shift out the
     * oldest drop if the array went over the cap.
     */
    method SpawnDrop(r: Draw)
      requires Valid() && r.Valid()
      modifies this`drops
      ensures Valid()
      ensures drops == Push(old(drops), MakeDrop(r, width))
    {
      drops := drops + [MakeDrop(r, width)];
      if |drops| > MAX_DROPS {
        drops := drops[1..];
      }
    }

    /**
     * The counting loops of `initDrops` and `updateDrops`: call `spawnDrop`
     * once per draw, in order.
     */
    method SpawnDrops(draws: seq<Draw>)
      requires Valid() && AllValid(draws)
      modifies this`drops
      ensures Valid()
      ensures drops == PushAll(old(drops), Spawned(draws, width))
    {
      var i := 0;
      while i < |draws|
        invariant 0 <= i <= |draws|
        invariant Valid()
        invariant drops == PushAll(old(drops), Spawned(draws[..i], width))
      {
        SpawnedPrefixNext(draws, width, i);
        PushAllNext(old(drops), Spawned(draws[..i], width), MakeDrop(draws[i], width));
        SpawnDrop(draws[i]);
        i := i + 1;
      }
      assert draws[..i] == draws;
    }

    /**
     * `initDrops`: discard every drop and spawn 60 new ones, one per draw;
     * the cap is never reached, so nothing is evicted.
     */
    method InitDrops(draws: seq<Draw>)
      requires Valid() && AllValid(draws) && |draws| >= INITIAL_DROPS
      modifies this`drops
      ensures Valid()
      ensures drops == Spawned(draws[..INITIAL_DROPS], width)
      ensures |drops| == 60
    {
      drops := [];
      AllValidSlice(draws, 0, INITIAL_DROPS);
      assert draws[0..INITIAL_DROPS] == draws[..INITIAL_DROPS];
      SpawnDrops(draws[..INITIAL_DROPS]);
      PushAllWithinCap([], Spawned(draws[..INITIAL_DROPS], width));
    }

    /**
     * `updateDrops(delta)`: spawn `SpawnCount(delta)` drops, then walk the
     * array from the back, stepping each drop and replacing each one that
     * fell below the screen by a fresh drop at the end. `used` is how many
     * draws the frame consumed. The result is `Frame`, whose length is
     * `min(180, n + SpawnCount(delta))`.
     */
    method UpdateDrops(delta: real, draws: seq<Draw>) returns (used: nat)
      requires Valid() && FrameDraws(drops, delta, draws)
      requires pointer.x.Some? ==> width != 0.0
      modifies this`drops
      ensures Valid()
      ensures drops == Frame(old(drops), delta, pointer.x, width, height, draws)
      ensures |drops| == Min(MAX_DROPS, |old(drops)| + SpawnCount(delta))
      ensures used == SpawnCount(delta)
                      + FallenCount(Spawn(old(drops), delta, width, draws), WindPush(pointer.x, width), height)
    {
      var spawnCount := SpawnCount(delta);
      AllValidSlice(draws, 0, spawnCount);
      assert draws[0..spawnCount] == draws[..spawnCount];
      SpawnDrops(draws[..spawnCount]);
      ghost var t := drops;
      used := FallBack(spawnCount, draws);
      FrameIs(old(drops), delta, pointer.x, width, height, draws, t, used, drops);
    }

    /**
     * The backward walk of `updateDrops`: step every drop, from the last to
     * the first; a drop that fell below the screen is removed and a fresh
     * drop made from the next unused draw, starting at `draws[spawnCount]`,
     * is spawned in its place at the end of the array. `k` is the index of
     * the first draw left unused.
     */
    method FallBack(spawnCount: nat, draws: seq<Draw>) returns (k: nat)
      requires Valid() && AllValid(draws) && spawnCount + |drops| <= |draws|
      requires pointer.x.Some? ==> width != 0.0
      modifies this`drops
      ensures Valid() && |drops| == |old(drops)|
      ensures k == spawnCount + FallenCount(old(drops), WindPush(pointer.x, width), height)
      ensures drops == Survivors(old(drops), WindPush(pointer.x, width), height)
                       + Spawned(draws[spawnCount..k], width)
    {
      ghost var t := drops;
      ghost var push := WindPush(pointer.x, width);
      k := spawnCount;
      var j := |drops| - 1;
      WalkedEnds(t, push, height);
      assert draws[spawnCount..k] == [];
      while j >= 0
        invariant -1 <= j < |t| && |drops| == |t| <= MAX_DROPS
        invariant Valid()
        invariant k == spawnCount + FallenCount(t[j + 1..], push, height)
        invariant AllValid(draws[spawnCount..k])
        invariant drops == Walked(t, j + 1, push, height, Spawned(draws[spawnCount..k], width))
      {
        k := Visit(j, t, spawnCount, k, draws);
        j := j - 1;
      }
      WalkedEnds(t, push, height);
    }

    /**
     * One visit of the backward walk, at index `j`: step the drop there and,
     * if it fell, cut it out and spawn its replacement from `draws[k]`.
     */
    method Visit(j: nat, ghost t: seq<Drop>, spawnCount: nat, k: nat, draws: seq<Draw>) returns (next: nat)
      requires Valid() && AllValid(draws) && (pointer.x.Some? ==> width != 0.0)
      requires j < |t| && |drops| == |t| && spawnCount + |t| <= |draws|
      requires k == spawnCount + FallenCount(t[j + 1..], WindPush(pointer.x, width), height)
      requires AllValid(draws[spawnCount..k])
      requires drops == Walked(t, j + 1, WindPush(pointer.x, width), height, Spawned(draws[spawnCount..k], width))
      modifies this`drops
      ensures Valid() && |drops| == |t|
      ensures next == spawnCount + FallenCount(t[j..], WindPush(pointer.x, width), height)
      ensures AllValid(draws[spawnCount..next])
      ensures drops == Walked(t, j, WindPush(pointer.x, width), height, Spawned(draws[spawnCount..next], width))
    {
      ghost var push := WindPush(pointer.x, width);
      ghost var arrived := Spawned(draws[spawnCount..k], width);
      WalkedAt(t, j + 1, push, height, arrived);
      var d := Advance(drops[j]);
      drops := drops[j := d];
      if d.y - d.len > height + BOTTOM_MARGIN {
        next := Replace(j, t, spawnCount, k, draws);
      } else {
        WalkedKeep(t, j + 1, push, height, arrived);
        next := k;
      }
    }

    /**
     * The fallen drop at index `j`, already stepped, is cut out of the array
     * and a replacement made from `draws[k]` is spawned at the end.
     */
    method Replace(j: nat, ghost t: seq<Drop>, spawnCount: nat, k: nat, draws: seq<Draw>) returns (next: nat)
      requires Valid() && AllValid(draws) && (pointer.x.Some? ==> width != 0.0)
      requires j < |t| && |drops| == |t| && spawnCount + |t| <= |draws|
      requires Fallen(Step(t[j], WindPush(pointer.x, width)), height)
      requires k == spawnCount + FallenCount(t[j + 1..], WindPush(pointer.x, width), height)
      requires AllValid(draws[spawnCount..k])
      requires drops == Walked(t, j + 1, WindPush(pointer.x, width), height, Spawned(draws[spawnCount..k], width))
                        [j := Step(t[j], WindPush(pointer.x, width))]
      modifies this`drops
      ensures Valid() && |drops| == |t|
      ensures next == spawnCount + FallenCount(t[j..], WindPush(pointer.x, width), height)
      ensures AllValid(draws[spawnCount..next])
      ensures drops == Walked(t, j, WindPush(pointer.x, width), height, Spawned(draws[spawnCount..next], width))
    {
      ReplaceAt(t, j, WindPush(pointer.x, width), height, width, draws, spawnCount, k, drops);
      drops := drops[..j] + drops[j + 1..];
      SpawnDrop(draws[k]);
      next := k + 1;
    }

    /**
     * The per-drop update of the `updateDrops` walk: gravity, then the move,
     * then the pointer's wind on `vx`, field by field as the drop object is
     * mutated.
     */
    method Advance(d0: Drop) returns (d: Drop)
      requires pointer.x.Some? ==> width != 0.0
      ensures d == Step(d0, WindPush(pointer.x, width))
    {
      d := d0;
      d := d.(vy := d.vy + GRAVITY);
      d := d.(x := d.x + d.vx);
      d := d.(y := d.y + d.vy);
      if pointer.x.Some? {
        var wind := Wind(pointer.x.value, width);
        d := d.(vx := d.vx + wind * 0.02);
      }
    }

    /**
     * What happens between two animation frames and in the second one: the
     * pointer handler for `input`, if any, then `updateDrops(delta)`.
     */
    method Tick(input: Input, delta: real, draws: seq<Draw>)
      requires Valid() && FrameDraws(drops, delta, draws)
      requires (input.Move? || pointer.x.Some?) ==> width != 0.0
      modifies this`drops, pointer
      ensures Valid() && width == old(width) && height == old(height)
      ensures pointer.x.Some? ==> width != 0.0
      ensures input.Move? ==>
                && pointer.isActive
                && pointer.x == Some(ClientPoint(input.e).0 - input.rect.left)
                && pointer.y == Some(ClientPoint(input.e).1 - input.rect.top)
      ensures input.Leave? ==>
                !pointer.isActive && pointer.x == old(pointer.x) && pointer.y == old(pointer.y)
      ensures input.NoInput? ==>
                && pointer.isActive == old(pointer.isActive)
                && pointer.x == old(pointer.x) && pointer.y == old(pointer.y)
      ensures drops == Frame(old(drops), delta, pointer.x, width, height, draws)
      ensures |drops| == Min(MAX_DROPS, |old(drops)| + SpawnCount(delta))
    {
      match input {
        case NoInput =>
        case Move(e, rect) => pointer.OnPointerMove(e, rect);
        case Leave => pointer.OnPointerLeave();
      }
      var _ := UpdateDrops(delta, draws);
    }

    /**
     * `onresize` (after the debounce): take the new viewport size and
     * restart the rain with a fresh initial population.
     */
    method OnResize(w: real, h: real, draws: seq<Draw>)
      requires Valid() && 0.0 <= w && 0.0 <= h && AllValid(draws) && |draws| >= INITIAL_DROPS
      modifies this`width, this`height, this`drops
      ensures Valid() && width == w && height == h
      ensures drops == Spawned(draws[..INITIAL_DROPS], w)
    {
      width, height := w, h;
      InitDrops(draws);
    }

    /**
     * Centre of the pointer glow drawn by `drawBackground`: the last recorded
     * pointer position, whether or not the pointer is still active, and the
     * middle of the viewport while no position has been recorded.
     */
    function GlowCentre(): (c: (real, real))
      requires Valid()
      reads this, pointer
      ensures pointer.x.Some? ==> c == (pointer.x.value, pointer.y.value)
      ensures pointer.x.None? ==> c == (width / 2.0, height / 2.0)
    {
      var gx := if pointer.x.Some? then pointer.x.value else width / 2.0;
      var gy := if pointer.y.Some? then pointer.y.value else height / 2.0;
      (gx, gy)
    }
  }

  /**
   * The array during the backward walk is the unvisited front `t[..j + 1]`
   * followed by the survivors and the replacements. Overwriting index `j`
   * changes only that drop; splicing it out joins the rest of the front
   * with the other two parts.
   */
  lemma WalkAt(t: seq<Drop>, j: int, surv: seq<Drop>, arrived: seq<Drop>, e: Drop)
    requires 0 <= j < |t|
    ensures (t[..j + 1] + surv + arrived)[j] == t[j]
    ensures (t[..j + 1] + surv + arrived)[j := e] == t[..j] + [e] + surv + arrived
    ensures var u := t[..j] + [e] + surv + arrived; u[..j] + u[j + 1..] == t[..j] + surv + arrived
  {
    assert t[..j + 1] == t[..j] + [t[j]];
    var u := t[..j] + [e] + surv + arrived;
    assert u[..j] == t[..j];
    assert u[j + 1..] == surv + arrived;
  }

  /** Visiting index `j` of the backward walk moves one stepped drop into the visited part. */
  lemma StepBack(t: seq<Drop>, j: int, push: real, height: real)
    requires 0 <= j < |t|
    ensures t[..j + 1] == t[..j] + [t[j]]
    ensures var e := Step(t[j], push);
      && FallenCount(t[j..], push, height)
         == (if Fallen(e, height) then 1 else 0) + FallenCount(t[j + 1..], push, height)
      && (Fallen(e, height) ==> Survivors(t[j..], push, height) == Survivors(t[j + 1..], push, height))
      && (!Fallen(e, height) ==> Survivors(t[j..], push, height) == [e] + Survivors(t[j + 1..], push, height))
  {
    assert t[j..][1..] == t[j + 1..];
    assert [] + Survivors(t[j + 1..], push, height) == Survivors(t[j + 1..], push, height);
  }

  /** One more replacement drop extends the replacements made so far. */
  lemma SpawnedNext(draws: seq<Draw>, width: real, c: nat, k: nat)
    requires AllValid(draws) && 0.0 <= width && c <= k < |draws|
    ensures AllValid(draws[c..k]) && AllValid(draws[c..k + 1]) && draws[k].Valid()
    ensures Spawned(draws[c..k + 1], width) == Spawned(draws[c..k], width) + [MakeDrop(draws[k], width)]
  {
    AllValidSlice(draws, c, k);
    AllValidSlice(draws, c, k + 1);
    var more := draws[c..k + 1];
    assert more[..|more| - 1] == draws[c..k];
  }

  /**
   * The array in the middle of the backward walk of `updateDrops`, once the
   * drops from index `i` on have been visited: the unvisited prefix of `t`,
   * the stepped drops of the visited part that are still on screen, and the
   * replacement drops spawned so far.
   */
  ghost function Walked(t: seq<Drop>, i: nat, push: real, height: real, arrived: seq<Drop>): seq<Drop>
    requires i <= |t|
  {
    t[..i] + Survivors(t[i..], push, height) + arrived
  }

  /**
   * Before the walk nothing has been visited and the array is `t` itself;
   * after it only survivors and replacements remain.
   */
  lemma WalkedEnds(t: seq<Drop>, push: real, height: real)
    ensures Walked(t, |t|, push, height, []) == t
    ensures forall arrived :: Walked(t, 0, push, height, arrived) == Survivors(t, push, height) + arrived
  {
    assert t[..|t|] == t && t[|t|..] == [] && t[..0] == [] && t[0..] == t;
  }

  /** The next drop the walk visits has not been touched yet. */
  lemma WalkedAt(t: seq<Drop>, i: nat, push: real, height: real, arrived: seq<Drop>)
    requires 0 < i <= |t|
    ensures Walked(t, i, push, height, arrived)[i - 1] == t[i - 1]
  {
    WalkAt(t, i - 1, Survivors(t[i..], push, height), arrived, t[i - 1]);
  }

  /** A visited drop that is still on screen is stepped in place. */
  lemma WalkedKeep(t: seq<Drop>, i: nat, push: real, height: real, arrived: seq<Drop>)
    requires 0 < i <= |t|
    requires !Fallen(Step(t[i - 1], push), height)
    ensures Walked(t, i, push, height, arrived)[i - 1 := Step(t[i - 1], push)]
            == Walked(t, i - 1, push, height, arrived)
    ensures FallenCount(t[i - 1..], push, height) == FallenCount(t[i..], push, height)
  {
    var e := Step(t[i - 1], push);
    var surv := Survivors(t[i..], push, height);
    StepBack(t, i - 1, push, height);
    WalkAt(t, i - 1, surv, arrived, e);
    assert t[..i - 1] + [e] + surv + arrived == t[..i - 1] + ([e] + surv) + arrived;
  }

  /**
   * A visited drop that fell is cut out of the array, and the drop `m`
   * spawned in its place joins the replacements at the end.
   */
  lemma WalkedFall(t: seq<Drop>, i: nat, push: real, height: real, arrived: seq<Drop>, m: Drop)
    requires 0 < i <= |t|
    requires Fallen(Step(t[i - 1], push), height)
    ensures var w := Walked(t, i, push, height, arrived)[i - 1 := Step(t[i - 1], push)];
            w[..i - 1] + w[i..] + [m] == Walked(t, i - 1, push, height, arrived + [m])
    ensures FallenCount(t[i - 1..], push, height) == 1 + FallenCount(t[i..], push, height)
  {
    var e := Step(t[i - 1], push);
    var surv := Survivors(t[i..], push, height);
    StepBack(t, i - 1, push, height);
    WalkAt(t, i - 1, surv, arrived, e);
    assert t[..i - 1] + surv + arrived + [m] == t[..i - 1] + surv + (arrived + [m]);
  }

  /**
   * Cutting the fallen drop at index `j` out of the walked array and spawning
   * the replacement from `draws[k]` gives the walked array one index further
   * back, with one more replacement.
   */
  lemma ReplaceAt(t: seq<Drop>, j: nat, push: real, height: real, width: real, draws: seq<Draw>,
                  c: nat, k: nat, before: seq<Drop>)
    requires AllValid(draws) && 0.0 <= width && j < |t| <= MAX_DROPS && c + |t| <= |draws|
    requires Fallen(Step(t[j], push), height)
    requires k == c + FallenCount(t[j + 1..], push, height)
    requires AllValid(draws[c..k])
    requires before == Walked(t, j + 1, push, height, Spawned(draws[c..k], width))[j := Step(t[j], push)]
    ensures draws[k].Valid() && AllValid(draws[c..k + 1])
    ensures k + 1 == c + FallenCount(t[j..], push, height)
    ensures var cut := before[..j] + before[j + 1..];
            |cut| < MAX_DROPS
            && Push(cut, MakeDrop(draws[k], width)) == Walked(t, j, push, height, Spawned(draws[c..k + 1], width))
  {
    var arrived := Spawned(draws[c..k], width);
    var m := MakeDrop(draws[k], width);
    WalkedFall(t, j + 1, push, height, arrived, m);
    SpawnedNext(draws, width, c, k);
    var cut := before[..j] + before[j + 1..];
    assert |cut| < MAX_DROPS by {
      assert |Survivors(t[j + 1..], push, height)| + |arrived| == |t| - j - 1;
    }
    PushFifo(cut, m);
  }

  /**
   * The spawn phase followed by the backward walk is the frame `Frame`
   * describes, and its length is the one `FrameBounds` gives.
   */
  lemma FrameIs(s: seq<Drop>, delta: real, px: Option<real>, width: real, height: real,
                draws: seq<Draw>, t: seq<Drop>, k: nat, r: seq<Drop>)
    requires FrameDraws(s, delta, draws) && 0.0 <= width && (px.Some? ==> width != 0.0)
    requires |s| <= MAX_DROPS
    requires t == PushAll(s, Spawned(draws[..SpawnCount(delta)], width))
    requires k == SpawnCount(delta) + FallenCount(t, WindPush(px, width), height)
    requires AllValid(draws[SpawnCount(delta)..k])
    requires r == Survivors(t, WindPush(px, width), height) + Spawned(draws[SpawnCount(delta)..k], width)
    ensures t == Spawn(s, delta, width, draws)
    ensures r == Frame(s, delta, px, width, height, draws)
    ensures |r| == Min(MAX_DROPS, |s| + SpawnCount(delta))
  {
    var c := SpawnCount(delta);
    var push := WindPush(px, width);
    assert t == Spawn(s, delta, width, draws);
    assert r == Survivors(t, push, height) + Spawned(draws[c..c + FallenCount(t, push, height)], width);
    FrameBounds(s, delta, px, width, height, draws);
  }

  /**
   * The glow stays where the pointer last was after the pointer leaves: it
   * follows the recorded position, not the active flag.
   */
  method GlowAfterLeave(w: real, h: real, e: PointerEvent, rect: Rect) returns (gx: real, gy: real)
    requires 0.0 <= w && 0.0 <= h
    ensures gx == ClientPoint(e).0 - rect.left && gy == ClientPoint(e).1 - rect.top
  {
    var bg := new Background(w, h);
    bg.pointer.OnPointerMove(e, rect);
    bg.pointer.OnPointerLeave();
    gx, gy := bg.GlowCentre().0, bg.GlowCentre().1;
  }

  /**
   * Before any pointer position has been recorded the glow sits in the middle
   * of the viewport, and a leave event does not move it.
   */
  method GlowBeforeMove(w: real, h: real) returns (gx: real, gy: real)
    requires 0.0 <= w && 0.0 <= h
    ensures gx == w / 2.0 && gy == h / 2.0
  {
    var bg := new Background(w, h);
    bg.pointer.OnPointerLeave();
    gx, gy := bg.GlowCentre().0, bg.GlowCentre().1;
  }

  /** Total number of drops spawned by frames with the given deltas. */
  function SpawnTotal(deltas: seq<real>): (n: nat)
    ensures n <= 3 * |deltas|
  {
    if deltas == [] then 0
    else SpawnTotal(deltas[..|deltas| - 1]) + SpawnCount(deltas[|deltas| - 1])
  }

  /** One more frame adds its own spawn count to the total. */
  lemma SpawnTotalNext(deltas: seq<real>, f: nat)
    requires f < |deltas|
    ensures SpawnTotal(deltas[..f + 1]) == SpawnTotal(deltas[..f]) + SpawnCount(deltas[f])
  {
    assert deltas[..f + 1][..f] == deltas[..f];
  }

  /**
   * `start` followed by one `updateDrops` per frame delta, each frame
   * preceded by at most one pointer event: the population starts at 60 and
   * grows by each frame's spawn count until it sits at the cap of 180, which
   * it never exceeds, wherever the pointer goes.
   */
  method Animate(w: real, h: real, initDraws: seq<Draw>, deltas: seq<real>, inputs: seq<Input>,
                 frameDraws: seq<seq<Draw>>) returns (count: nat)
    requires 0.0 <= w && 0.0 <= h
    requires w == 0.0 ==> forall f :: 0 <= f < |inputs| ==> !inputs[f].Move?
    requires AllValid(initDraws) && |initDraws| >= INITIAL_DROPS
    requires |frameDraws| == |deltas| && |inputs| == |deltas|
    requires forall f :: 0 <= f < |deltas| ==>
               AllValid(frameDraws[f]) && |frameDraws[f]| >= 2 * SpawnCount(deltas[f]) + MAX_DROPS
    ensures count == Min(MAX_DROPS, INITIAL_DROPS + SpawnTotal(deltas))
  {
    var bg := new Background(w, h);
    bg.InitDrops(initDraws);
    var f := 0;
    while f < |deltas|
      invariant 0 <= f <= |deltas|
      invariant fresh(bg) && fresh(bg.pointer)
      invariant bg.Valid() && bg.width == w
      invariant bg.pointer.x.Some? ==> w != 0.0
      invariant |bg.drops| == Min(MAX_DROPS, INITIAL_DROPS + SpawnTotal(deltas[..f]))
    {
      SpawnTotalNext(deltas, f);
      bg.Tick(inputs[f], deltas[f], frameDraws[f]);
      f := f + 1;
    }
    assert deltas[..f] == deltas;
    count := |bg.drops|;
  }
}
