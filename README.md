# Raindrop buffer of the interactive background

`interactive-bg.js` draws a rain animation behind a page. Its state is a
handful of module-level variables. The viewport `width` and `height` are set
on resize. The `pointer` record holds `x`, `y` and `isActive`, and is written
by the pointer handlers. The `drops` array holds at most `MAX_DROPS = 180`
raindrop records and is changed in place by three functions:

- `spawnDrop` pushes a random drop and shifts out the oldest one when the
  array goes over the cap.
- `initDrops` resets the array to 60 drops.
- `updateDrops(delta)` runs once per animation frame. It spawns 0 to 3
  drops, depending on the elapsed time. It then walks the array from the back,
  applying gravity and the pointer's wind to each drop. A drop that fell below
  the screen is spliced out, and a fresh one is spawned at the end.

This project models that buffer, the pointer record, the choice of the glow
centre in `drawBackground`, and the run-once guard of `initRevealOnScroll`.

Layout:

- `drops.dfy` holds module `Drops`, the value-level specification. It
  defines:
  - a drop record, and a `Draw` of the six `Math.random()` results one spawn
    consumes;
  - the drop a draw makes;
  - the capped push and its batch form;
  - the spawn-count clamp;
  - the wind term and the per-drop step;
  - the survivors of a frame, and the array a whole frame leaves (`Frame`).

  It also holds module `Optional`, the `null`-able value used for the pointer
  coordinates.
- `pointer.dfy` holds module `PointerState`: class `Pointer` and its two
  event handlers.
- `background.dfy` holds module `InteractiveBackground`, with class
  `Background`. Its fields are `width`, `height`, `pointer` and `drops`. Its
  methods change `drops` step by step as the script does: push, then shift;
  overwrite an index; splice; spawn. Each method is proved to leave exactly the
  array the functions of `Drops` describe.
- `reveal.dfy` holds module `Reveal`: the `revealSetup` flag.

`Math.random()` is not a function of anything in the model. Each call is
instead a real number in [0, 1) supplied by the caller, six per spawned drop,
consumed in order.

## Model

| member | source | states |
|---|---|---|
| Drops.MakeDrop | interactive-bg.js:32-39 | A drop spawned from draws in [0,1) has x in [0, width) (exactly 0 on a zero-width canvas), y in (-210, -10], vx in [-0.3, 0.3), vy in [2, 6), len in [8, 26) and alpha in [0.25, 0.85). |
| Drops.Push | interactive-bg.js:31-41 | After `spawnDrop`, the array is one drop longer below the cap, and keeps its length once the cap is reached. |
| Drops.PushFifo | interactive-bg.js:31-41 | The new drop is last. The drops before it are the newest drops of the old array, in order, so at most the oldest is lost. Below the cap, the push is a plain append. |
| Drops.PushAll | interactive-bg.js:105 | Pushing a batch grows the array by the batch size up to the cap of 180. Starting within the cap, it never goes beyond it; an array already over the cap keeps its length. |
| Drops.PushAllSuffix | interactive-bg.js:105 | Pushing a batch keeps exactly the newest drops: the result is a suffix of the old array followed by the batch. |
| Drops.PushAllWithinCap | interactive-bg.js:45 | A batch that fits under the cap is appended whole; nothing is evicted. |
| Drops.Spawned | interactive-bg.js:31-39 | One spawned drop per draw. |
| Drops.SpawnedAt | interactive-bg.js:31-39 | The j-th spawned drop is the one made from the j-th draw. |
| Drops.SpawnCount | interactive-bg.js:104 | The clamped spawn count is at most 3. It is 0 exactly when delta < 50/3, negative deltas included. It is 3 exactly when delta >= 50. |
| Drops.WindDirection | interactive-bg.js:113-117 | With no recorded pointer, the wind is zero. Otherwise it pushes `vx` towards the side the pointer is on, in both directions of the iff. Its size is at most 0.0002 per frame while the pointer is inside the canvas. |
| Drops.Step | interactive-bg.js:109-117 | `vy` gains exactly 0.06 before `y` moves, so `y` advances by the old `vy` + 0.06. `x` advances by the old `vx`. `vx` changes only by the wind push. `len` and `alpha` never change. |
| Drops.FallenCount | interactive-bg.js:119-123 | The number of fallen drops never exceeds the number of drops. |
| Drops.Survivors | interactive-bg.js:119-123 | The survivors plus the fallen drops account for every drop of the array. |
| Drops.SurvivorsStanding | interactive-bg.js:119-123 | No drop that is kept is below the respawn line (`y - len > height + 40`). |
| Drops.SpawnedStanding | interactive-bg.js:34-37 | A freshly spawned drop is never below the respawn line of a canvas of non-negative height. |
| Drops.Spawn | interactive-bg.js:104-105 | The spawn phase adds at most `SpawnCount(delta)` drops. |
| Drops.Frame | interactive-bg.js:103-125 | A frame's walk keeps the array's length. Each fallen drop is replaced, so respawning does not change the count. |
| Drops.FrameBounds | interactive-bg.js:103-125 | Starting within the cap, a frame leaves exactly min(180, n + spawnCount) drops. On a canvas of non-negative height, no drop is left below the respawn line. |
| InteractiveBackground.Background.SpawnDrop | interactive-bg.js:31-41 | The in-place push followed by the conditional `shift` leaves `Push(old drops, new drop)`, and keeps the array within the cap. |
| InteractiveBackground.Background.SpawnDrops | interactive-bg.js:105 | The counting loop of `spawnDrop` calls leaves `PushAll` of the drops made from the draws, in order. |
| InteractiveBackground.Background.InitDrops | interactive-bg.js:43-46 | Whatever was there before is discarded. Exactly 60 drops are left, the ones made from the first 60 draws, with no eviction. |
| InteractiveBackground.Background.UpdateDrops | interactive-bg.js:103-125 | The array after a frame is `Frame(old drops, ...)`, of length min(180, n + SpawnCount(delta)). It consumes one draw per spawn and one per fallen drop. |
| InteractiveBackground.Background.FallBack | interactive-bg.js:107-124 | The backward walk leaves the stepped survivors, in their original order, followed by one replacement per fallen drop, in the order they fell. The array keeps its length. |
| InteractiveBackground.Background.Visit | interactive-bg.js:108-123 | Visiting index i steps the drop there and moves it into the visited part. If it fell, it is replaced by a fresh drop at the end, which the walk does not reach in the same frame. |
| InteractiveBackground.Background.Replace | interactive-bg.js:120-123 | `splice` of the fallen drop followed by `spawnDrop` adds exactly one replacement at the end. |
| InteractiveBackground.Background.Advance | interactive-bg.js:109-117 | The field-by-field update of one drop, including the conditional wind, is `Step` with the pointer's wind push. |
| InteractiveBackground.Background.OnResize | interactive-bg.js:170-177 | After a resize, the viewport has its new size and the rain restarts with 60 drops spawned across the new width. |
| InteractiveBackground.Background.GlowCentre | interactive-bg.js:73-74 | The glow is centred entirely on the recorded pointer position once one is recorded, and entirely on the middle of the viewport while none is, whether or not the pointer is active. |
| InteractiveBackground.GlowAfterLeave | interactive-bg.js:62-74 | After a move and then a leave, the glow stays where the pointer was last seen. It follows the recorded position, not `isActive`. |
| InteractiveBackground.GlowBeforeMove | interactive-bg.js:67-74 | Before any move, the glow is the centre of the viewport, and a leave event does not change that. |
| InteractiveBackground.SpawnTotal | interactive-bg.js:104 | Over f frames, at most 3f drops are spawned. |
| InteractiveBackground.Background.Tick | interactive-bg.js:179-182 | A frame preceded by a move, a leave or no pointer event. The pointer afterwards is what that handler leaves: after a move, the new position and active; after a leave, the old position and inactive; otherwise unchanged. The drops are `Frame` of the old drops under that pointer, exactly min(180, n + SpawnCount(delta)) of them, and the viewport is unchanged. |
| InteractiveBackground.Animate | interactive-bg.js:149-168 | `start` followed by any number of frames, each preceded by at most one pointer move or leave, keeps the population at min(180, 60 + the spawn counts so far), so it never exceeds 180, wherever the pointer goes. |
| PointerState.Pointer.OnPointerMove | interactive-bg.js:50-65 | A move activates the pointer. It records the first touch's position if there is a touch, and the mouse position otherwise, relative to the canvas's top-left corner. It sets both coordinates together. |
| PointerState.Pointer.OnPointerLeave | interactive-bg.js:67-69 | A leave deactivates the pointer and leaves the recorded position unchanged. |
| Reveal.RevealGuard.InitRevealOnScroll | interactive-bg.js:230-236 | After the call, the flag is set and the setup has run exactly once. The call runs the setup exactly when the flag was not set before. |
| Reveal.InitRepeatedly | interactive-bg.js:230-242 | However many times the guard is called, the setup runs once, or never if the guard is never called, and the first call is the one that runs it. |

## Left out

- Canvas rendering (`drawBackground` apart from its glow centre, and `drawDrops`): gradients, strokes and fills are browser drawing calls with no state of the script.
- `resize`: it reads the device pixel ratio and the viewport and writes the canvas size. The model takes the measured `width` and `height` as inputs of `OnResize` and of the `Background` constructor.
- The state before the first resize (`width = height = 0` with no drops) is not a separate state of the model. The constructor starts from a measured viewport.
- `frame`, `requestAnimationFrame`, `performance.now`, the resize debounce, event-listener wiring, `boot` and the start overlay are host event-loop and DOM plumbing. `Animate` stands in for a run of frames, with the frame deltas and the pointer events between frames as inputs.
- `setupRevealOnScroll`: the `IntersectionObserver` work on `.reveal` nodes is a DOM effect. The model only counts how many times it runs.
- The header scroll toggle (`setupHeaderScroll`) and all of `src/main.js`: DOM class toggles and generated CSS strings, with no state worth modelling.
- Floating point: coordinates, velocities and `delta` are real numbers, so rounding, `Infinity` and `NaN` are not modelled.
- InteractiveBackground.Background.UpdateDrops: requires a non-zero width while a pointer position is recorded. With width 0, the wind term divides by zero: in the script `vx` then becomes `+Infinity` for a pointer right of 0, `-Infinity` for one left of 0, and `NaN` for a pointer exactly at 0 (or once opposite infinities meet).
- InteractiveBackground.Background.UpdateDrops: takes its random draws as a finite sequence that must hold enough of them (`FrameDraws`: two per spawned drop plus one per drop). The script calls `Math.random()` as often as needed.
- PointerState.Pointer.OnPointerMove: a touch event with an empty `touches` list falls back to the event's own `clientX`/`clientY`, as the script does for mouse events. In a browser those are `undefined` on a touch event, which would make the coordinates `NaN`.
- Drop objects are held as values in a sequence, not as shared mutable objects. Nothing else in the script holds a reference to a drop, so there is no aliasing to capture. The in-place field updates of one drop become one new value.
- InteractiveBackground.Animate: a debounced resize between frames is not among its inputs. A resize restarts the rain at 60 drops (`OnResize`), so the population formula counts from the last resize, not from `start`. It also allows at most one pointer event per gap between frames; further moves only overwrite the position, and the formula does not depend on it. On a zero-width viewport it allows no move, for the division by zero described for `UpdateDrops`.
