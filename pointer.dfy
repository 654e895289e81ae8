/**
 * The pointer record of the interactive background: the last pointer or
 * touch position in canvas coordinates and whether the pointer is over the
 * page. Move events overwrite both coordinates and raise the flag; leave
 * events only lower the flag, so the last position outlives the pointer.
 */
module PointerState {
  import opened Optional

  /** One entry of a touch event's `touches` list. */
  datatype TouchPoint = TouchPoint(clientX: real, clientY: real)

  /**
   * A `mousemove` or `touchmove` event. A mouse event has no touches; a touch
   * event carries its coordinates in `touches`.
   */
  datatype PointerEvent = PointerEvent(touches: seq<TouchPoint>, clientX: real, clientY: real)

  /** The part of the canvas's bounding rectangle the handler reads. */
  datatype Rect = Rect(left: real, top: real)

  /** Viewport coordinates of an event: its first touch if it has one. */
  function ClientPoint(e: PointerEvent): (real, real) {
    if |e.touches| > 0 then (e.touches[0].clientX, e.touches[0].clientY)
    else (e.clientX, e.clientY)
  }

  class Pointer {
    var x: Option<real>
    var y: Option<real>
    var isActive: bool

    /** Both coordinates are recorded together, or neither is. */
    ghost predicate Valid()
      reads this
    {
      x.Some? == y.Some?
    }

    /** `{ x: null, y: null, isActive: false }` */
    constructor ()
      ensures Valid()
      ensures x == None && y == None && !isActive
    {
      x, y, isActive := None, None, false;
    }

    /**
     * `onPointerMove`: the first touch wins over the mouse coordinates; the
     * position is stored relative to the canvas's top-left corner.
     */
    method OnPointerMove(e: PointerEvent, rect: Rect)
      modifies this
      ensures Valid() && isActive
      ensures |e.touches| > 0 ==>
                x == Some(e.touches[0].clientX - rect.left) && y == Some(e.touches[0].clientY - rect.top)
      ensures |e.touches| == 0 ==>
                x == Some(e.clientX - rect.left) && y == Some(e.clientY - rect.top)
    {
      var clientX, clientY;
      if |e.touches| > 0 {
        clientX := e.touches[0].clientX;
        clientY := e.touches[0].clientY;
        isActive := true;
      } else {
        clientX := e.clientX;
        clientY := e.clientY;
        isActive := true;
      }
      x := Some(clientX - rect.left);
      y := Some(clientY - rect.top);
    }

    /** `onPointerLeave`: only the flag drops; the last position is kept. */
    method OnPointerLeave()
      modifies this`isActive
      ensures !isActive
      ensures x == old(x) && y == old(y)
    {
      isActive := false;
    }
  }
}
