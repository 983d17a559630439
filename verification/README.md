# Responsive slider: gesture recognizer, mobile toggle and viewport classifier

This project models the logic inside the `ResponsiveSlider` carousel widget. The widget shows a mobile or a desktop view depending on the window width. The model covers three parts of it:

- **Gesture** (`gesture.dfy`): the drag-threshold recognizer behind the mobile "swipe to start" arrow (`DraggableArrow`). A touch-start arms it and records the start coordinate. A forward touch-move drags the handle to the distance travelled, with no easing. When a move covers 70% of the screen width, the recognizer fires the advance callback, ends the drag and eases the handle back to 0. A touch-end during a drag ends it and eases the handle home. The state is only the dragging flag, the start coordinate and the spring's last target. As in the component, there is no explicit "returning" state. `Step` handles one event. `Run` folds it over an event sequence and counts the fires.
- **Mobile** (`mobile.dfy`): the mobile view's `handleSlideChange` callback. It toggles slide 0 to slide 1 and asks the carousel for "next". It toggles slide 1 to slide 0 and asks for "previous". Any other index is left alone. The optional carousel handle decides whether the request is delivered. `RunMobile` composes the toggle with the recognizer, and the lemmas relate the composed view to the recognizer on its own. `RunSharedId` models the page as written, where both slides' arrows share one element id (see "## Findings").
- **Viewport** (`viewport.dfy`): the `checkMobile` classifier. A window is narrow when its width is at most 768 pixels. The flag is recomputed on mount and on every resize until unmount. The root renders the mobile view exactly when the flag is set.

Touch coordinates are `real`, and the screen width is the positive subset type `Gesture.Width`. Window widths for the classifier are `int`, because the window's inner width is a whole number of CSS pixels. Each event carries its inputs as values. A touch event carries its contact coordinate. A move also carries the screen width read at that moment. A mount or resize carries the window width. Whether the carousel handle is mounted is a parameter of `RunMobile`.

## Model

| member | source | states |
|---|---|---|
| Gesture.Step | src/components/ResponsiveSlider.tsx:43-73 | Only a touch-start starts a drag and records the start X, and it leaves the handle alone. The callback fires exactly on a forward move, during a drag, that reaches the threshold. A move while not dragging, or a backward one, changes nothing. A forward move below the threshold puts the handle at deltaX immediately, keeps dragging, and stays short of 70% of the width. A firing move first jumps the handle to deltaX, then ends the drag and eases the handle to 0. A touch-end never fires: it releases an ongoing drag and otherwise changes nothing. The handle is the last spring write, and no write is negative. |
| Gesture.ThresholdIsSevenTenths | src/components/ResponsiveSlider.tsx:56-61 | `(deltaX / width) * 100 >= 70` holds exactly when 10·deltaX ≥ 7·width. |
| Gesture.ThresholdMonotone | src/components/ResponsiveSlider.tsx:56-61 | On a fixed screen width, if a drag distance reaches the threshold then any longer one does too. |
| Gesture.Run | src/components/ResponsiveSlider.tsx:38-72 | Starting from a non-negative handle offset, such as the spring's initial 0, the offset stays non-negative after any event sequence. |
| Gesture.FiresBoundedByStarts | src/components/ResponsiveSlider.tsx:43-65 | Over any event sequence, the number of fires is at most the number of touch-starts, plus one if a drag was already under way. |
| Gesture.AtMostOneFirePerTouch | src/components/ResponsiveSlider.tsx:48-72 | Between one touch-start and the next, the callback fires at most once, whatever moves and touch-ends arrive. It fires never if no drag is under way. |
| Gesture.IdleIgnoresAllButStart | src/components/ResponsiveSlider.tsx:48-72 | Once the drag is over, after a fire or a touch-end, moves and touch-ends leave the state, including the handle, exactly as it was, and nothing fires. |
| Gesture.BackwardMovesInert | src/components/ResponsiveSlider.tsx:48-54 | A sequence of moves that all stay behind the start X leaves the state and handle unchanged and never fires. |
| Gesture.SeventyPercentFires | src/components/ResponsiveSlider.tsx:56-65 | On a 1000-wide screen, a drag of exactly 700 fires once, at that move, and the handle eases back to 0. |
| Gesture.JustShortThenReleaseDoesNotFire | src/components/ResponsiveSlider.tsx:56-72 | On a 1000-wide screen, a drag of 699 followed by a touch-end does not fire, and the handle eases back to 0. |
| Mobile.HandleSlideChange | src/components/ResponsiveSlider.tsx:113-121 | A request is made exactly when the index is 0 or 1, and then the index moves to the other slide. Without a request the index is unchanged. The request is "next" exactly when the index grew and "previous" exactly when it shrank. |
| Mobile.ToggleInvolution | src/components/ResponsiveSlider.tsx:113-121 | Applying the toggle twice gives back any index. From slide 0 or 1, the two requests are one "next" and one "previous". |
| Mobile.Deliver | src/components/ResponsiveSlider.tsx:115-118 | At most one call reaches the carousel, and it is the request itself. It is delivered whenever the handle is mounted and there is a request, and nothing is delivered while the handle is absent (the `?.` calls). |
| Mobile.OnTouch | src/components/ResponsiveSlider.tsx:113-121 | One touch on the arrow moves the index exactly when the recognizer fires and the index is 0 or 1. A request is made exactly when the index moves. A move is the callback's: slide 0 goes to 1 with "next", and slide 1 goes to 0 with "previous". |
| Mobile.RunMobile | src/components/ResponsiveSlider.tsx:109-121 | Feeding touches to the view keeps the index on slide 0 or 1 when it starts there. Every carousel call is a real navigation, and none is made while the handle is absent. |
| Mobile.MobileFollowsArrow | src/components/ResponsiveSlider.tsx:109-121 | Under the intended per-arrow wiring (see Mobile.RunMobile under "## Left out"): starting on slide 0 or 1, the view's arrow ends in the same state as the recognizer alone. The active index is the start index plus the number of fires, modulo 2. The index is updated whether or not the carousel handle is mounted. |
| Mobile.MobileArrowIsRecognizer | src/components/ResponsiveSlider.tsx:109-121 | Under the intended per-arrow wiring (see Mobile.RunMobile under "## Left out"): from any index, the view's arrow goes through exactly the states of the recognizer alone: the toggle never feeds back into the gesture state. |
| Mobile.EachFireFlips | src/components/ResponsiveSlider.tsx:113-121 | Under the intended per-arrow wiring (see Mobile.RunMobile under "## Left out"): starting on slide 0 or 1, the final index is the start index flipped to the other slide once per fire. |
| Mobile.FlipTimesIsParity | src/components/ResponsiveSlider.tsx:113-121 | Flipping between slides 0 and 1 n times lands on (start + n) modulo 2. |
| Mobile.OneCallPerFire | src/components/ResponsiveSlider.tsx:113-121 | Under the intended per-arrow wiring (see Mobile.RunMobile under "## Left out"): starting on slide 0 or 1, there is one carousel call per fire while the handle is mounted, and none without it. |
| Mobile.CallsFollowFlips | src/components/ResponsiveSlider.tsx:113-121 | Under the intended per-arrow wiring (see Mobile.RunMobile under "## Left out"): starting on slide 0 or 1, the n-th carousel call is "next" when n flips from the start land on slide 0, and "previous" otherwise. |
| Mobile.MobileCallsAlternate | src/components/ResponsiveSlider.tsx:113-121 | Under the intended per-arrow wiring (see Mobile.RunMobile under "## Left out"): with the handle mounted there is one carousel call per fire, alternating "next" and "previous" and starting with "next" from slide 0. Without the handle no call is made. |
| Mobile.TwoFiresComeBack | src/components/ResponsiveSlider.tsx:113-121 | Under the intended per-arrow wiring (see Mobile.RunMobile under "## Left out"): from the first slide, any touch sequence that fires twice ends back on slide 0, after the calls "next" then "previous". |
| Viewport.Breakpoint | src/components/ResponsiveSlider.tsx:21 | 768 is narrow and 769 is wide. Narrow means a width below 769, and any width narrower than a narrow one is narrow too. |
| Viewport.SelectView | src/components/ResponsiveSlider.tsx:32 | The root renders the mobile view exactly when the narrow flag is set. |
| Viewport.Step | src/components/ResponsiveSlider.tsx:17-28 | The resize listener is registered from mount until unmount. A mount, or a resize while registered, sets the flag to the width's class. Any other event leaves the flag alone. |
| Viewport.Flags | src/components/ResponsiveSlider.tsx:19-28 | There is one flag per event, and the last one is the flag of the state reached after all events. |
| Viewport.Final | src/components/ResponsiveSlider.tsx:19-28 | The listener is registered at the end only if it was before or some event was a mount. An unmount as the last event leaves it removed. If the flag changed, it is the class of a width that some mount or resize reported. |
| Viewport.FlagsArePointwise | src/components/ResponsiveSlider.tsx:19-28 | After a mount followed by resizes, the flag after each event is the class of that event's width. |
| Viewport.ResizesWhileListening | src/components/ResponsiveSlider.tsx:20-25 | While the listener is registered, every resize reclassifies. The listener stays registered, and the final flag is the class of the latest width. |
| Viewport.LatestWidthPicksView | src/components/ResponsiveSlider.tsx:19-33 | After a mount and any resizes, the root shows the mobile view exactly when the latest width is at most 768. |
| Viewport.NoHandlerAfterUnmount | src/components/ResponsiveSlider.tsx:27 | Once the listener is removed, resizes and unmounts have no effect: the flag stays frozen. |
| Mobile.RunSharedId | src/components/ResponsiveSlider.tsx:75-77 | As written, both arrows listen on the first slide's arrow. Away from slide 0 no touch has any effect, and every carousel call is "next". |
| Mobile.SharedIdSwipeCannotGoBack | src/components/ResponsiveSlider.tsx:75-77 | Two full 70% swipes from slide 0 come back to slide 0 with "next" then "previous" when each arrow has its own element. As written, they end on slide 1 after two "next" calls. |
| Viewport.WideNarrowWide | src/components/ResponsiveSlider.tsx:19-25 | Widths 800, 500 and 900 classify as wide, narrow and wide. |

## Left out

- React rendering, JSX and hooks. The state that `useState` and `useRef` hold is modelled explicitly. `Viewport.Initial` keeps the `false` default that the root renders with before its effect first runs.
- Listener registration and cleanup on the arrow (lines 75-86) as DOM calls. Where the listeners end up is modelled by `Mobile.RunSharedId`; see "## Findings".
- Mobile.RunMobile: models the intended wiring, where the touches on the arrow on show reach a recognizer that calls the callback once. As written, both recognizers listen on the first slide's arrow (see "## Findings"). The model also feeds both arrows' touches to one recognizer state, so it does not keep a separate handle per arrow.
- Mobile.MobileCallsAlternate: the alternating "next"/"previous" calls hold for the intended per-arrow wiring, not for the program as written, which only ever calls "next" (see "## Findings").
- Mobile.TwoFiresComeBack: the return to slide 0 holds for the intended per-arrow wiring. As written, the second slide's arrow has no listeners, so the return cannot happen (see "## Findings").
- Re-registration of the arrow's listeners when the callback changes (line 87). The dragging flag, the start X and the spring survive it, because they live in refs and the spring. The model therefore keeps one recognizer state throughout. It also assumes the view re-renders between touch cycles, so each fire sees the index set by the previous one.
- The spring animation itself. Only each target and its immediate/eased flag are recorded, not the easing curve or timing.
- The carousel library: slide transitions, pagination, the `onSlideChange` index sync (lines 150 and 231), autoplay timing with `stopOnLastSlide` and `disableOnInteraction` (lines 219-223), and the desktop "next" button (lines 196-198). Their behaviour lives in the library and is not visible in this component.
- The desktop view's composition and the static slide content and assets. These are presentation, with no logic beyond an `activeIndex === index` opacity test.
- Floating point. Coordinates are exact reals, and the screen width is required to be positive. JavaScript's NaN and Infinity for a zero width are not modelled.
- The unused `framer-motion` and `@use-gesture/react` imports.

## Findings

| source | as written | input that shows it | evidently intended | confidence | as-written member | corrected member |
|---|---|---|---|---|---|---|
| src/components/ResponsiveSlider.tsx:75-77 | Both slides render a `DraggableArrow` with the id `draggable-arrow` (lines 91 and 180). Each arrow's effect registers its listeners on `getElementById('draggable-arrow')`, which is the first slide's arrow. A 70% swipe on slide 0 fires both recognizers, and both call `handleSlideChange` with index 0, so `slideNext` is called twice. The second slide's "Swipe to go back" arrow has no listeners. | Touch-start at 0, move to 700 on a 1000-wide screen, then the same again: as written the view ends on slide 1 after calls next, next. | Each arrow listens on its own element. One swipe gives one toggle, so the second swipe returns to slide 0 with "previous". | medium; not executed | Mobile.RunSharedId, Mobile.SharedIdSwipeCannotGoBack | Mobile.MobileCallsAlternate |
