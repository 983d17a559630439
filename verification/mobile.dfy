/**
 The mobile view: two slides, advanced only through the draggable arrow.
 Each time the arrow fires, the view toggles between slide 0 and slide 1
 and asks the carousel to move the same way. The carousel handle may not
 be mounted yet, in which case the request is dropped while the index is
 still updated.
 */
module Mobile {
  import Gesture

  /** The navigation the toggle asks for, if any. */
  datatype Request = SlideNext | SlidePrev | NoRequest

  /** The new active index and the navigation the toggle asks for. */
  datatype Toggle = Toggle(index: int, request: Request)

  /** The arrow's callback: slide 0 goes forward to 1, slide 1 goes back to
      0, and any other index is left alone. */
  function HandleSlideChange(activeIndex: int): (t: Toggle)
    // A request is made exactly when the index is one of the two slides.
    ensures t.request != NoRequest <==> activeIndex == 0 || activeIndex == 1
    ensures t.request == NoRequest ==> t.index == activeIndex
    // A request moves to the other slide, in the direction it names.
    ensures t.request != NoRequest ==> t.index == 1 - activeIndex
    ensures t.request == SlideNext <==> t.index > activeIndex
    ensures t.request == SlidePrev <==> t.index < activeIndex
  {
    if activeIndex == 0 then Toggle(1, SlideNext)
    else if activeIndex == 1 then Toggle(0, SlidePrev)
    else Toggle(activeIndex, NoRequest)
  }

  /** Toggling twice gives back the index; on the two slides the second
      request undoes the first. */
  lemma ToggleInvolution(activeIndex: int)
    ensures HandleSlideChange(HandleSlideChange(activeIndex).index).index == activeIndex
    ensures activeIndex == 0 || activeIndex == 1 ==>
              {HandleSlideChange(activeIndex).request,
               HandleSlideChange(HandleSlideChange(activeIndex).index).request}
              == {SlideNext, SlidePrev}
  {
  }

  /** The calls that reach the carousel: none while its handle is absent. */
  function Deliver(request: Request, carouselMounted: bool): (calls: seq<Request>)
    ensures |calls| <= 1
    ensures forall i :: 0 <= i < |calls| ==> calls[i] == request && request != NoRequest
    ensures carouselMounted && request != NoRequest ==> calls == [request]
    ensures !carouselMounted ==> calls == []
  {
    if carouselMounted && request != NoRequest then [request] else []
  }

  /** The view's own state: its active index and the arrow's recognizer. */
  datatype MobileState = MobileState(activeIndex: int, arrow: Gesture.State)

  const Initial: MobileState := MobileState(0, Gesture.Initial)

  /** The view after some touches, and the carousel calls they caused. */
  datatype MobileRun = MobileRun(final: MobileState, calls: seq<Request>)

  /** Feeds touches on the arrow to the view; every fire runs the toggle. */
  function RunMobile(m: MobileState, events: seq<Gesture.Event>, carouselMounted: bool): (r: MobileRun)
    // The index stays on one of the two slides.
    ensures m.activeIndex == 0 || m.activeIndex == 1 ==> r.final.activeIndex == 0 || r.final.activeIndex == 1
    // Every call made is a real navigation, and none is made without the handle.
    ensures forall i :: 0 <= i < |r.calls| ==> r.calls[i] != NoRequest
    ensures !carouselMounted ==> r.calls == []
    decreases |events|
  {
    if events == [] then MobileRun(m, [])
    else
      var o := Gesture.Step(m.arrow, events[0]);
      var t := OnTouch(m.activeIndex, o.fired);
      var rest := RunMobile(MobileState(t.index, o.state), events[1..], carouselMounted);
      MobileRun(rest.final, Deliver(t.request, carouselMounted) + rest.calls)
  }

  /** The carousel call made by the n-th fire from `start`: forward from
      slide 0, back from slide 1, the slide reached after n flips. */
  function NthRequest(start: int, n: nat): Request
  {
    if FlipTimes(start, n) == 0 then SlideNext else SlidePrev
  }

  /** What one touch on the arrow does to the index, given whether the
      recognizer fired on it: the callback's toggle if it did, nothing otherwise. */
  function OnTouch(activeIndex: int, fired: bool): (t: Toggle)
    // The index moves exactly when the arrow fires on one of the two slides.
    ensures t.index != activeIndex <==> fired && (activeIndex == 0 || activeIndex == 1)
    // A request is made exactly when the index moves.
    ensures t.request == NoRequest <==> t.index == activeIndex
    // A move is the callback's: slide 0 goes to 1 with next, slide 1 to 0 with previous.
    ensures t.index != activeIndex ==> t == HandleSlideChange(activeIndex)
  {
    if fired then HandleSlideChange(activeIndex)
    else Toggle(activeIndex, NoRequest)
  }

  /** The view's arrow goes through exactly the states of the recognizer
      alone, whatever the index. */
  lemma {:induction false} MobileArrowIsRecognizer(m: MobileState, events: seq<Gesture.Event>, carouselMounted: bool)
    ensures RunMobile(m, events, carouselMounted).final.arrow == Gesture.Run(m.arrow, events).final
    decreases |events|
  {
    if events != [] {
      var o := Gesture.Step(m.arrow, events[0]);
      var t := OnTouch(m.activeIndex, o.fired);
      MobileArrowIsRecognizer(MobileState(t.index, o.state), events[1..], carouselMounted);
    }
  }

  /** Starting on one of the two slides, the view's arrow behaves exactly as
      the recognizer alone, and each fire flips the slide. */
  lemma {:induction false} MobileFollowsArrow(m: MobileState, events: seq<Gesture.Event>, carouselMounted: bool)
    requires m.activeIndex == 0 || m.activeIndex == 1
    ensures RunMobile(m, events, carouselMounted).final.arrow == Gesture.Run(m.arrow, events).final
    ensures RunMobile(m, events, carouselMounted).final.activeIndex
            == (m.activeIndex + Gesture.Run(m.arrow, events).fires) % 2
  {
    MobileArrowIsRecognizer(m, events, carouselMounted);
    EachFireFlips(m, events, carouselMounted);
    FlipTimesIsParity(m.activeIndex, Gesture.Run(m.arrow, events).fires);
  }

  /** Slide 0 or 1 after flipping to the other slide `n` times. */
  function FlipTimes(index: int, n: nat): int
    decreases n
  {
    if n == 0 then index else FlipTimes(1 - index, n - 1)
  }

  lemma {:induction false} FlipTimesIsParity(index: int, n: nat)
    requires index == 0 || index == 1
    ensures FlipTimes(index, n) == (index + n) % 2
    decreases n
  {
    if n > 0 {
      FlipTimesIsParity(1 - index, n - 1);
    }
  }

  /** Starting on one of the two slides, the index flips once per fire. */
  lemma {:induction false} EachFireFlips(m: MobileState, events: seq<Gesture.Event>, carouselMounted: bool)
    requires m.activeIndex == 0 || m.activeIndex == 1
    ensures RunMobile(m, events, carouselMounted).final.activeIndex
            == FlipTimes(m.activeIndex, Gesture.Run(m.arrow, events).fires)
    decreases |events|
  {
    if events != [] {
      var o := Gesture.Step(m.arrow, events[0]);
      var next := MobileState(OnTouch(m.activeIndex, o.fired).index, o.state);
      EachFireFlips(next, events[1..], carouselMounted);
    }
  }

  /** Starting on one of the two slides, with the carousel handle mounted
      there is one call per fire; without it there is none. */
  lemma {:induction false} OneCallPerFire(m: MobileState, events: seq<Gesture.Event>, carouselMounted: bool)
    requires m.activeIndex == 0 || m.activeIndex == 1
    ensures |RunMobile(m, events, carouselMounted).calls|
            == (if carouselMounted then Gesture.Run(m.arrow, events).fires else 0)
    decreases |events|
  {
    if events != [] {
      var o := Gesture.Step(m.arrow, events[0]);
      var t := OnTouch(m.activeIndex, o.fired);
      OneCallPerFire(MobileState(t.index, o.state), events[1..], carouselMounted);
    }
  }

  /** Each fire asks the carousel for next and previous in turn, starting
      forward from slide 0; while the carousel handle is absent no call is
      made at all. */
  lemma {:induction false} MobileCallsAlternate(m: MobileState, events: seq<Gesture.Event>, carouselMounted: bool)
    requires m.activeIndex == 0 || m.activeIndex == 1
    ensures |RunMobile(m, events, carouselMounted).calls|
            == (if carouselMounted then Gesture.Run(m.arrow, events).fires else 0)
    ensures forall i :: 0 <= i < |RunMobile(m, events, carouselMounted).calls| ==>
              RunMobile(m, events, carouselMounted).calls[i] == NthRequest(m.activeIndex, i)
  {
    OneCallPerFire(m, events, carouselMounted);
    CallsFollowFlips(m, events, carouselMounted);
  }

  lemma {:induction false} CallsFollowFlips(m: MobileState, events: seq<Gesture.Event>, carouselMounted: bool)
    requires m.activeIndex == 0 || m.activeIndex == 1
    ensures forall i :: 0 <= i < |RunMobile(m, events, carouselMounted).calls| ==>
              RunMobile(m, events, carouselMounted).calls[i] == NthRequest(m.activeIndex, i)
    decreases |events|
  {
    if events != [] {
      var o := Gesture.Step(m.arrow, events[0]);
      var t := OnTouch(m.activeIndex, o.fired);
      var next := MobileState(t.index, o.state);
      CallsFollowFlips(next, events[1..], carouselMounted);
      var rest := RunMobile(next, events[1..], carouselMounted).calls;
      var calls := RunMobile(m, events, carouselMounted).calls;
      assert calls == Deliver(t.request, carouselMounted) + rest;
      if o.fired && carouselMounted {
        assert calls[0] == NthRequest(m.activeIndex, 0);
        forall i | 1 <= i < |calls|
          ensures calls[i] == NthRequest(m.activeIndex, i)
        {
          assert calls[i] == rest[i - 1];
          assert t.index == 1 - m.activeIndex;
        }
      }
    }
  }

  /** From the first slide, two fires of the arrow visit slide 1 and come
      back, asking the carousel for next and then previous. */
  lemma TwoFiresComeBack(events: seq<Gesture.Event>)
    requires Gesture.Run(Gesture.Initial, events).fires == 2
    ensures RunMobile(Initial, events, true).final.activeIndex == 0
    ensures RunMobile(Initial, events, true).calls == [SlideNext, SlidePrev]
  {
    MobileFollowsArrow(Initial, events, true);
    MobileCallsAlternate(Initial, events, true);
  }

  /** The page as written: both slides' arrows look their element up by the
      same id, so both attach their listeners to the first slide's arrow and
      the second slide's arrow has none. A touch lands on the arrow of the
      slide on show, so it reaches the two recognizers only while slide 0 is
      active, and then both see it. Both call the callback of the same
      render, so a fire makes two calls with the same index. The carousel
      handle is mounted, since the slide is on show. */
  datatype SharedIdView = SharedIdView(activeIndex: int, first: Gesture.State, second: Gesture.State)

  const SharedIdInitial: SharedIdView := SharedIdView(0, Gesture.Initial, Gesture.Initial)

  datatype SharedIdRun = SharedIdRun(final: SharedIdView, calls: seq<Request>)

  function RunSharedId(v: SharedIdView, events: seq<Gesture.Event>): (r: SharedIdRun)
    // Away from the first slide no touch reaches a listener: nothing changes.
    ensures v.activeIndex != 0 ==> r == SharedIdRun(v, [])
    // The carousel is only ever asked to go forward.
    ensures forall i :: 0 <= i < |r.calls| ==> r.calls[i] == SlideNext
    decreases |events|
  {
    if events == [] || v.activeIndex != 0 then SharedIdRun(v, [])
    else
      var o1 := Gesture.Step(v.first, events[0]);
      var o2 := Gesture.Step(v.second, events[0]);
      var t1 := OnTouch(v.activeIndex, o1.fired);
      var t2 := OnTouch(v.activeIndex, o2.fired);
      var index := if o2.fired then t2.index else t1.index;
      var rest := RunSharedId(SharedIdView(index, o1.state, o2.state), events[1..]);
      SharedIdRun(rest.final, Deliver(t1.request, true) + Deliver(t2.request, true) + rest.calls)
  }

  /** Two full swipes from the first slide: with an element per arrow they
      go to slide 1 and back; as written the first asks for next twice and
      the second, on slide 1's arrow, reaches no listener. */
  lemma SharedIdSwipeCannotGoBack()
    ensures var swipes := [Gesture.TouchStart(0.0), Gesture.TouchMove(700.0, 1000.0),
                           Gesture.TouchStart(0.0), Gesture.TouchMove(700.0, 1000.0)];
            && RunMobile(Initial, swipes, true).final.activeIndex == 0
            && RunMobile(Initial, swipes, true).calls == [SlideNext, SlidePrev]
            && RunSharedId(SharedIdInitial, swipes).final.activeIndex == 1
            && RunSharedId(SharedIdInitial, swipes).calls == [SlideNext, SlideNext]
  {
  }
}
