/**
 * Pointer presence for the particle background: `mousemove` stores the
 * event's coordinates, `mouseout` clears both to null, and the per-frame
 * interaction pass runs only while both coordinates are truthy.
 */
module Pointer {
  import opened Wrappers

  /** Radius around the pointer within which particles react (`mouse.radius`). */
  const INTERACTION_RADIUS: int := 150

  /** The two window listeners' events. */
  datatype PointerEvent = MouseMove(x: int, y: int) | MouseOut

  /** The `mouse` record's coordinates; null is None. */
  datatype MouseState = MouseState(x: Option<int>, y: Option<int>)

  /** JavaScript truthiness of a coordinate: null and 0 are both falsy. */
  predicate Truthy(v: Option<int>)
  {
    v.Some? && v.value != 0
  }

  /** The guard `mouse.x && mouse.y` of the interaction pass. */
  predicate InteractionRuns(m: MouseState)
  {
    Truthy(m.x) && Truthy(m.y)
  }

  /** One listener's effect on the record. */
  function Handle(m: MouseState, e: PointerEvent): (next: MouseState)
  {
    match e
    case MouseMove(x, y) => MouseState(Some(x), Some(y))
    case MouseOut => MouseState(None, None)
  }

  /** The record after the events `events`, from its initial nulls. */
  function StateAfter(events: seq<PointerEvent>): (state: MouseState)
  {
    if events == [] then MouseState(None, None)
    else Handle(StateAfter(events[..|events| - 1]), events[|events| - 1])
  }

  /** The interaction pass runs iff the latest pointer event is a move whose
      coordinates are both non-zero; both coordinates are always present
      together or absent together. */
  lemma InteractionFollowsLastEvent(events: seq<PointerEvent>)
    ensures StateAfter(events).x.Some? <==> StateAfter(events).y.Some?
    ensures InteractionRuns(StateAfter(events)) <==>
              events != [] && events[|events| - 1].MouseMove? &&
              events[|events| - 1].x != 0 && events[|events| - 1].y != 0
  {
  }

  /** After a `mouseout`, the next frame behaves as at page load: no pass runs. */
  lemma OutIsLikeInitial(events: seq<PointerEvent>)
    ensures StateAfter(events + [MouseOut]) == StateAfter([])
    ensures !InteractionRuns(StateAfter(events + [MouseOut]))
  {
  }

  /** A pointer on the left or top edge (coordinate 0) counts as absent. */
  lemma ZeroCoordinateSkips(events: seq<PointerEvent>, x: int, y: int)
    requires x == 0 || y == 0
    ensures !InteractionRuns(StateAfter(events + [MouseMove(x, y)]))
  {
  }

  /** The `mouse` object. The ghost field `events` records the events so far. */
  class Mouse {
    var x: Option<int>
    var y: Option<int>
    const radius: int
    ghost var events: seq<PointerEvent>

    ghost predicate Valid()
      reads this
    {
      MouseState(x, y) == StateAfter(events) && radius == INTERACTION_RADIUS
    }

    constructor ()
      ensures Valid() && events == [] && x == None && y == None
    {
      x, y := None, None;
      radius := INTERACTION_RADIUS;
      events := [];
    }

    /** The `mousemove` listener. */
    method OnMouseMove(eventX: int, eventY: int)
      requires Valid()
      modifies this
      ensures Valid() && events == old(events) + [MouseMove(eventX, eventY)]
      ensures x == Some(eventX) && y == Some(eventY)
    {
      x := Some(eventX);
      y := Some(eventY);
      events := events + [MouseMove(eventX, eventY)];
      assert events[..|events| - 1] == old(events);
    }

    /** The `mouseout` listener. */
    method OnMouseOut()
      requires Valid()
      modifies this
      ensures Valid() && events == old(events) + [MouseOut]
      ensures x == None && y == None
    {
      x := None;
      y := None;
      events := events + [MouseOut];
      assert events[..|events| - 1] == old(events);
    }

    /** The guard at the top of `connectToMouse`: whether this frame runs
        the link, repulsion and glow pass. */
    method InteractionGuard() returns (runs: bool)
      requires Valid()
      ensures runs <==> events != [] && events[|events| - 1].MouseMove? &&
                        events[|events| - 1].x != 0 && events[|events| - 1].y != 0
    {
      InteractionFollowsLastEvent(events);
      runs := x.Some? && x.value != 0 && y.Some? && y.value != 0;
    }
  }
}
