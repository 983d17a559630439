/**
 The root of the widget: a viewport classifier that buckets the window
 width into narrow and wide layouts, recomputed on mount and on every
 resize until unmount, and the choice of the mobile or desktop view from it.
 */
module Viewport {

  /** The widest window, in CSS pixels, still laid out as mobile. */
  const MobileMaxWidth: int := 768

  predicate IsMobile(width: int)
  {
    width <= MobileMaxWidth
  }

  /** 768 pixels is still narrow, 769 is already wide, and the classes are
      ordered: anything narrower than a narrow width is narrow too. */
  lemma Breakpoint(width: int, narrower: int)
    ensures IsMobile(768) && !IsMobile(769)
    ensures IsMobile(width) <==> width < 769
    ensures narrower <= width && IsMobile(width) ==> IsMobile(narrower)
  {
  }

  datatype View = MobileView | DesktopView

  /** The root renders the mobile view exactly on a narrow viewport. */
  function SelectView(isMobile: bool): (v: View)
    ensures v.MobileView? <==> isMobile
  {
    if isMobile then MobileView else DesktopView
  }

  /** Lifecycle and window events seen by the root. */
  datatype ViewportEvent = Mount(width: int) | Resize(width: int) | Unmount

  /** The narrow-layout flag and whether the resize listener is registered. */
  datatype ViewportState = ViewportState(isMobile: bool, listening: bool)

  /** Before its first effect runs the root renders with the flag false. */
  const Initial: ViewportState := ViewportState(false, false)

  /** Whether an event reclassifies the window: a mount always does, a
      resize only while the listener is registered. */
  predicate Reclassifies(s: ViewportState, e: ViewportEvent)
  {
    e.Mount? || (e.Resize? && s.listening)
  }

  function Step(s: ViewportState, e: ViewportEvent): (t: ViewportState)
    // The listener is registered from mount until unmount.
    ensures t.listening <==> e.Mount? || (s.listening && !e.Unmount?)
    ensures Reclassifies(s, e) ==> t.isMobile == IsMobile(e.width)
    ensures !Reclassifies(s, e) ==> t.isMobile == s.isMobile
  {
    match e
    case Mount(width) => ViewportState(IsMobile(width), true)
    case Resize(width) => if s.listening then s.(isMobile := IsMobile(width)) else s
    case Unmount => s.(listening := false)
  }

  /** The flag after each of the events, in order. */
  function Flags(s: ViewportState, events: seq<ViewportEvent>): (flags: seq<bool>)
    ensures |flags| == |events|
    // The last flag is the one the root ends up rendering with.
    ensures events != [] ==> flags[|events| - 1] == Final(s, events).isMobile
    decreases |events|
  {
    if events == [] then []
    else
      var t := Step(s, events[0]);
      [t.isMobile] + Flags(t, events[1..])
  }

  /** The state after all the events. */
  function Final(s: ViewportState, events: seq<ViewportEvent>): (r: ViewportState)
    // Only a mount registers the listener, and an unmount last leaves it removed.
    ensures r.listening ==> s.listening || exists i :: 0 <= i < |events| && events[i].Mount?
    ensures events != [] && events[|events| - 1].Unmount? ==> !r.listening
    // A changed flag is the class of some width that a mount or resize reported.
    ensures r.isMobile != s.isMobile ==>
              exists i :: 0 <= i < |events| && !events[i].Unmount? && r.isMobile == IsMobile(events[i].width)
    decreases |events|
  {
    if events == [] then s
    else
      var t := Step(s, events[0]);
      var r := Final(t, events[1..]);
      assert forall j :: 0 <= j < |events[1..]| ==> events[1..][j] == events[j + 1];
      r
  }

  /** A mount followed by resizes: one classification per event. */
  predicate MountThenResizes(events: seq<ViewportEvent>)
  {
    && |events| > 0
    && events[0].Mount?
    && forall i :: 1 <= i < |events| ==> events[i].Resize?
  }

  /** From any state, after a mount the flag is recomputed on every resize:
      the widths map pointwise to the flags. */
  lemma {:induction false} FlagsArePointwise(s: ViewportState, events: seq<ViewportEvent>)
    requires MountThenResizes(events)
    ensures forall i :: 0 <= i < |events| ==> Flags(s, events)[i] == IsMobile(events[i].width)
  {
    var t := Step(s, events[0]);
    ResizesWhileListening(t, events[1..]);
  }

  lemma {:induction false} ResizesWhileListening(s: ViewportState, events: seq<ViewportEvent>)
    requires s.listening
    requires forall i :: 0 <= i < |events| ==> events[i].Resize?
    ensures forall i :: 0 <= i < |events| ==> Flags(s, events)[i] == IsMobile(events[i].width)
    ensures Final(s, events).listening
    ensures events != [] ==> Final(s, events).isMobile == IsMobile(events[|events| - 1].width)
    ensures events == [] ==> Final(s, events) == s
    decreases |events|
  {
    if events != [] {
      var t := Step(s, events[0]);
      ResizesWhileListening(t, events[1..]);
      var tail := events[1..];
      forall i | 1 <= i < |events|
        ensures Flags(s, events)[i] == IsMobile(events[i].width)
      {
        assert Flags(s, events)[i] == Flags(t, tail)[i - 1];
        assert tail[i - 1] == events[i];
      }
      if tail != [] {
        assert tail[|tail| - 1] == events[|events| - 1];
      }
    }
  }

  /** After a mount and any resizes, the root shows the mobile view exactly
      when the latest width is at most 768. */
  lemma LatestWidthPicksView(s: ViewportState, events: seq<ViewportEvent>)
    requires MountThenResizes(events)
    ensures SelectView(Final(s, events).isMobile).MobileView?
            <==> events[|events| - 1].width <= MobileMaxWidth
  {
    var t := Step(s, events[0]);
    ResizesWhileListening(t, events[1..]);
    assert Final(s, events) == Final(t, events[1..]);
    if |events| > 1 {
      assert events[1..][|events| - 2] == events[|events| - 1];
    }
  }

  /** Once unmounted, resizes reach no handler: the flag stays frozen. */
  lemma {:induction false} NoHandlerAfterUnmount(s: ViewportState, events: seq<ViewportEvent>)
    requires !s.listening
    requires forall i :: 0 <= i < |events| ==> !events[i].Mount?
    ensures Final(s, events) == s
    ensures forall i :: 0 <= i < |events| ==> Flags(s, events)[i] == s.isMobile
    decreases |events|
  {
    if events != [] {
      assert Step(s, events[0]) == s;
      NoHandlerAfterUnmount(s, events[1..]);
      forall i | 1 <= i < |events|
        ensures Flags(s, events)[i] == s.isMobile
      {
        assert Flags(s, events)[i] == Flags(s, events[1..])[i - 1];
      }
    }
  }

  /** Widths 800, 500, 900 classify as wide, narrow, wide. */
  lemma WideNarrowWide()
    ensures Flags(Initial, [Mount(800), Resize(500), Resize(900)]) == [false, true, false]
  {
  }
}
