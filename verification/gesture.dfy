/**
 The drag-threshold gesture recognizer behind the mobile "swipe to advance"
 arrow. A touch-start arms the recognizer, forward touch-moves drag the
 handle along with the finger, and a move that covers 70% of the screen
 width fires the advance callback once and sends the handle back home.

 As in the component, the state is a single `dragging` flag plus the
 recorded start coordinate: there is no explicit "returning" state, the
 easing back to 0 is only recorded as the handle's target.
 */
module Gesture {

  /** Share of the screen width, in percent, a forward drag must cover to fire. */
  const ThresholdPercent: real := 70.0

  /** The screen width read at each move; the model leaves out a zero width. */
  type Width = w: real | w > 0.0 witness 1.0

  /** The last target handed to the spring animating the handle, and whether
      it was written immediately (true) or eased towards (false). */
  datatype Handle = Handle(target: real, immediate: bool)

  /** The spring's starting value: the handle at rest at offset 0. */
  const AtRest: Handle := Handle(0.0, true)

  /** The eased return of the handle to offset 0. */
  const EaseHome: Handle := Handle(0.0, false)

  datatype State = State(dragging: bool, startX: real, handle: Handle)

  /** The state when the arrow is first mounted. */
  const Initial: State := State(false, 0.0, AtRest)

  /** A single-contact touch event; `x` is the contact's horizontal
      coordinate, and a move also carries the screen width at that moment. */
  datatype Event =
    | TouchStart(x: real)
    | TouchMove(x: real, screenWidth: Width)
    | TouchEnd

  /** The result of handling one event: the new state, whether the advance
      callback was called, and the spring writes issued, in order. */
  datatype Outcome = Outcome(state: State, fired: bool, writes: seq<Handle>)

  /** How far across the screen a drag of `deltaX` has gone, in percent. */
  function Progress(deltaX: real, screenWidth: Width): real
  {
    (deltaX / screenWidth) * 100.0
  }

  predicate ReachesThreshold(deltaX: real, screenWidth: Width)
  {
    Progress(deltaX, screenWidth) >= ThresholdPercent
  }

  /** The threshold test is the same as "the drag covers at least seven
      tenths of the screen width". */
  lemma ThresholdIsSevenTenths(deltaX: real, screenWidth: Width)
    ensures ReachesThreshold(deltaX, screenWidth) <==> 10.0 * deltaX >= 7.0 * screenWidth
  {
  }

  /** A longer drag on the same screen fires whenever a shorter one does. */
  lemma ThresholdMonotone(deltaX: real, longer: real, screenWidth: Width)
    requires deltaX <= longer
    requires ReachesThreshold(deltaX, screenWidth)
    ensures ReachesThreshold(longer, screenWidth)
  {
  }

  /** Stops the drag and eases the handle back to 0. */
  function Release(s: State): State
  {
    s.(dragging := false, handle := EaseHome)
  }

  /** Handles one touch event. */
  function Step(s: State, e: Event): (o: Outcome)
    // Only a touch-start begins a drag, and only it records a start coordinate.
    ensures o.state.dragging ==> s.dragging || e.TouchStart?
    ensures e.TouchStart? ==> o.state.dragging && o.state.startX == e.x
    ensures !e.TouchStart? ==> o.state.startX == s.startX
    // A touch-start leaves the handle where it is.
    ensures e.TouchStart? ==> o.state.handle == s.handle && o.writes == [] && !o.fired
    // The callback fires exactly on a forward move, while dragging, that
    // reaches the threshold.
    ensures o.fired <==>
              e.TouchMove? && s.dragging && e.x - s.startX >= 0.0
              && ReachesThreshold(e.x - s.startX, e.screenWidth)
    // A move while not dragging, or backwards, is ignored entirely.
    ensures e.TouchMove? && (!s.dragging || e.x < s.startX) ==> o == Outcome(s, false, [])
    // A forward move below the threshold drags the handle to the distance
    // travelled at once, which stays short of 70% of the screen.
    ensures e.TouchMove? && s.dragging && e.x - s.startX >= 0.0 && !o.fired ==>
              && o.state == s.(handle := Handle(e.x - s.startX, true))
              && o.writes == [o.state.handle]
              && 0.0 <= o.state.handle.target
              && 10.0 * o.state.handle.target < 7.0 * e.screenWidth
    // A firing move first drags the handle, then eases it home and ends the drag.
    ensures o.fired ==>
              && o.state == Release(s)
              && o.writes == [Handle(e.x - s.startX, true), EaseHome]
    // A touch-end never fires; it ends an ongoing drag and otherwise changes nothing.
    ensures e.TouchEnd? ==> !o.fired
    ensures e.TouchEnd? && s.dragging ==> o.state == Release(s) && o.writes == [EaseHome]
    ensures e.TouchEnd? && !s.dragging ==> o == Outcome(s, false, [])
    // The handle ends on the last spring write, if any.
    ensures o.writes != [] ==> o.state.handle == o.writes[|o.writes| - 1]
    ensures o.writes == [] ==> o.state.handle == s.handle
    // The handle is never sent to a negative offset.
    ensures forall i :: 0 <= i < |o.writes| ==> o.writes[i].target >= 0.0
  {
    match e
    case TouchStart(x) =>
      Outcome(s.(dragging := true, startX := x), false, [])
    case TouchMove(x, screenWidth) =>
      var deltaX := x - s.startX;
      if !s.dragging || deltaX < 0.0 then
        Outcome(s, false, [])
      else
        var dragged := Handle(deltaX, true);
        if ReachesThreshold(deltaX, screenWidth) then
          Outcome(Release(s), true, [dragged, EaseHome])
        else
          ThresholdIsSevenTenths(deltaX, screenWidth);
          Outcome(s.(handle := dragged), false, [dragged])
    case TouchEnd =>
      if s.dragging then Outcome(Release(s), false, [EaseHome])
      else Outcome(s, false, [])
  }

  /** The state after a sequence of events and how often the callback fired. */
  datatype Replay = Replay(final: State, fires: nat)

  /** Feeds the events to the recognizer one after the other. */
  function Run(s: State, events: seq<Event>): (r: Replay)
    // From a non-negative offset the handle never goes negative.
    ensures s.handle.target >= 0.0 ==> r.final.handle.target >= 0.0
    decreases |events|
  {
    if events == [] then Replay(s, 0)
    else
      var o := Step(s, events[0]);
      var rest := Run(o.state, events[1..]);
      Replay(rest.final, rest.fires + (if o.fired then 1 else 0))
  }

  /** The number of touch-starts among the events. */
  function CountStarts(events: seq<Event>): nat
  {
    if events == [] then 0
    else CountStarts(events[1..]) + (if events[0].TouchStart? then 1 else 0)
  }

  /** Every fire uses up a drag: the callback fires at most once per
      touch-start, plus once for a drag already under way. */
  lemma {:induction false} FiresBoundedByStarts(s: State, events: seq<Event>)
    ensures Run(s, events).fires <= CountStarts(events) + (if s.dragging then 1 else 0)
    decreases |events|
  {
    if events != [] {
      var o := Step(s, events[0]);
      FiresBoundedByStarts(o.state, events[1..]);
    }
  }

  /** Between one touch-start and the next the callback fires at most once,
      whatever moves and touch-ends arrive; and not at all once the drag is
      over. The first fire ends the drag, after which nothing fires. */
  lemma {:induction false} AtMostOneFirePerTouch(s: State, events: seq<Event>)
    requires forall i :: 0 <= i < |events| ==> !events[i].TouchStart?
    ensures Run(s, events).fires <= 1
    ensures !s.dragging ==> Run(s, events).fires == 0
    decreases |events|
  {
    if events != [] {
      var o := Step(s, events[0]);
      if o.fired {
        IdleIgnoresAllButStart(o.state, events[1..]);
      } else {
        AtMostOneFirePerTouch(o.state, events[1..]);
      }
    }
  }

  /** Once the drag is over, nothing but a new touch-start has any effect:
      the recognizer neither moves the handle nor fires. */
  lemma {:induction false} IdleIgnoresAllButStart(s: State, events: seq<Event>)
    requires !s.dragging
    requires forall i :: 0 <= i < |events| ==> !events[i].TouchStart?
    ensures Run(s, events) == Replay(s, 0)
    decreases |events|
  {
    if events != [] {
      assert Step(s, events[0]).state == s;
      IdleIgnoresAllButStart(s, events[1..]);
    }
  }

  /** Moves that all stay behind the start coordinate leave the handle
      untouched and never fire. */
  lemma {:induction false} BackwardMovesInert(s: State, events: seq<Event>)
    requires forall i :: 0 <= i < |events| ==> events[i].TouchMove? && events[i].x < s.startX
    ensures Run(s, events) == Replay(s, 0)
    decreases |events|
  {
    if events != [] {
      assert Step(s, events[0]).state == s;
      BackwardMovesInert(s, events[1..]);
    }
  }

  /** On a 1000-wide screen a drag of exactly 700 fires, at that move. */
  lemma SeventyPercentFires()
    ensures Run(Initial, [TouchStart(0.0), TouchMove(700.0, 1000.0)])
            == Replay(Release(State(true, 0.0, AtRest)), 1)
  {
  }

  /** On a 1000-wide screen a drag of 699 followed by a release does not
      fire, and the handle eases back to 0. */
  lemma JustShortThenReleaseDoesNotFire()
    ensures Run(Initial, [TouchStart(0.0), TouchMove(699.0, 1000.0), TouchEnd])
            == Replay(State(false, 0.0, EaseHome), 0)
  {
  }
}
