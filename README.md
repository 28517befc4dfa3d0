# Sliding stacked widget: transition controller

This project models the transition controller of `SlidingStackedWidget`
(`widgets/sliding_stacked_widgets.py`). The widget is a stacked container of n
pages that slides from the shown page to a requested one. It handles four
things:

- Index normalisation: the policy for wrapping at the ends.
- Request coalescing: a request made during a slide only overwrites the
  pending target, unless it asks for the page being slid to. The guard
  ignores that request, so the older target survives it.
- Starting a slide: visibility, stacking order, and the start and end
  positions of the two pages.
- Finishing: the page reached is committed, and a pending target is followed
  up through a zero-delay callback. There is also the watchdog's forced
  finish.

The project has four modules:

- `Geometry` (`geometry.dfy`): integer points, the container's frame
  rectangle, and the incoming and outgoing offsets along the configured axis.
- `Stacking` (`stacking.dfy`): the stacking order as a sequence of page
  indices, bottom first. `raise_` moves a page to the top and `lower` moves it
  to the bottom. The module includes the permutation and position lemmas.
- `Transitions` (`transitions.dfy`): the whole controller state as a value
  `State`, and one function per method of the widget giving the state that
  method leaves behind. This module holds the invariant `Valid` and the
  lemmas about requests, finishing and forced finishing.
- `SlidingStackedWidgets` (`sliding_stacked_widget.dfy`): the widget as a
  class. Its methods change its fields step by step, with the source's loops
  over the pages. Each method is proved to leave exactly the state the
  matching `Transitions` function computes:
  `Snap() == Transitions.F(old(Snap()))`. Each public method also keeps
  `Valid()`.

The class fields follow the groups the widget's constructor sets up:

- the four animation parameters, as separate fields;
- the state tracking (`current_index`, `next_index`, `is_animating`,
  `target_index`), as one `Tracking` value;
- the animation group with the transition tracking (the group, `_is_forward`,
  `active_transition_indices`, `active_widgets`), as one `Animation` value;
- the host container's side, as one `Host` value: the index the container
  reports as current and, per page, visibility, stacking order and position;
- the queue of zero-delay callbacks, as the page each one requests.

Pages are identified by their index. A widget the container does not hold
(`indexOf` returns -1) is an index outside `0 .. n-1`.

Environment events are methods the environment calls:

- `OnAnimationFinished`: the group's `finished` signal. It is only
  meaningful while a group exists, and the code checks for that.
- `ForceFinishAnimation`: the watchdog. The code creates the timer but never
  starts it, so nothing in the widget calls this method. It is kept as an
  event the environment may deliver.
- `RunDeferred`: the event loop running the oldest callback queued by line
  279.

Some behaviours of the code are reproduced as written:

- After a forced finish, `next_index`, `current_index` and `target_index` are
  left as they were. A later request for the page the interrupted slide was
  heading to is therefore ignored by the guard. This is proved in
  `ForcedFinishIgnoresInterruptedDestination`. Requesting the page on display
  starts a slide of that page onto itself
  (`ForcedFinishReRequestSlidesOntoItself`).
- The field `current_index` equals the container's index whenever the widget
  is idle after a normal finish, but not necessarily after a forced finish. The invariant
  `Valid` therefore ties the visible page to the container's index, not to
  `current_index`.
- While a slide runs, exactly the pair is visible: two pages, or a single
  page when a page slides onto itself. The branches that keep
  a third "target" page visible below the pair cannot be reached: a slide is
  only started by a request whose page becomes both target and next. They are
  modelled anyway, because the per-method contracts do not assume it.
- The outgoing page starts at the frame's corner and ends at corner plus
  `OutgoingEnd`. The incoming page is parked at corner plus `IncomingOffset`.
  Its tween, however, starts at the bare `IncomingOffset` and ends at the
  corner. `ParkedPagesMoveTogether` proves that, measured from where each page
  was placed, both pages travel the same vector.
  `AnimatedPagesMoveTogetherIffCornerAtOrigin` proves that the two tweens
  move by the same vector exactly when the frame's corner is the origin.
  A frame rectangle normally starts at the origin.
- A burst of requests during a slide lands on the last page requested only
  when that page is not the one being slid to. A request for `next_index` is
  ignored by the guard, so the older target stays. After the slide lands, the
  deferred callback slides on to that older target. For example, with a slide
  heading to page 1 and requests for 2, 4 and 1, the widget lands on 1 and
  then slides on to 4. This is proved in
  `BurstEndingOnDestinationFollowsStaleTarget`.

## Model

| member | source | states |
|---|---|---|
| SlidingStackedWidgets.SlidingStackedWidget.constructor | widgets/sliding_stacked_widgets.py:6-23 | initial state: page 0 is current, next and the only visible page, all pages are at the frame's corner, wrap is off, speed is 500 and the curve is OutCubic; the invariant holds |
| SlidingStackedWidgets.SlidingStackedWidget.SlideInNext | widgets/sliding_stacked_widgets.py:26-29 | the new state is `Transitions.SlideInNext` of the old one, so the lemmas below apply; keeps the invariant |
| SlidingStackedWidgets.SlidingStackedWidget.SlideInPrev | widgets/sliding_stacked_widgets.py:31-35 | the new state is `Transitions.SlideInPrev` of the old one; keeps the invariant |
| SlidingStackedWidgets.SlidingStackedWidget.SlideInIdx | widgets/sliding_stacked_widgets.py:37-42 | the new state is the request for the normalised index; keeps the invariant |
| SlidingStackedWidgets.SlidingStackedWidget.SlideInWgt | widgets/sliding_stacked_widgets.py:44-66 | the new state is `Transitions.SlideInWgt`: unknown page and page == next ignored, target overwritten, a slide started only while idle; keeps the invariant |
| SlidingStackedWidgets.SlidingStackedWidget.PrepareTransition | widgets/sliding_stacked_widgets.py:68-113 | records the pair and the direction; parks the incoming page at corner plus the incoming offset; leaves the visibility and stacking that the loop computes |
| SlidingStackedWidgets.SlidingStackedWidget.ShowTransitionPages | widgets/sliding_stacked_widgets.py:100-113 | the loop leaves a page visible iff it is in the pair or is the target, and raises the pair in index order |
| SlidingStackedWidgets.SlidingStackedWidget.StartAnimation | widgets/sliding_stacked_widgets.py:115-118 | a group still running is cleaned up first, then the group is started |
| SlidingStackedWidgets.SlidingStackedWidget.StartGroup | widgets/sliding_stacked_widgets.py:120-195 | animating is set; the pair is raised over a lowered, still-visible target outside the pair; the outgoing page goes to the corner; both tweens' start and end points, duration and curve are fixed |
| SlidingStackedWidgets.SlidingStackedWidget.StackForAnimation | widgets/sliding_stacked_widgets.py:124-132 | the stacking loop in index order equals raising the pair over the stack with the target lowered to the bottom |
| SlidingStackedWidgets.SlidingStackedWidget.CleanupAnimation | widgets/sliding_stacked_widgets.py:221-231 | the group is dropped and the recorded transition pages go back to the corner, nothing else changes |
| SlidingStackedWidgets.SlidingStackedWidget.MoveToCorner | widgets/sliding_stacked_widgets.py:227-231 | exactly the pages of the given set are moved to the frame's corner |
| SlidingStackedWidgets.SlidingStackedWidget.OnAnimationFinished | widgets/sliding_stacked_widgets.py:233-295 | the new state is `Transitions.OnAnimationFinished` of the old one; keeps the invariant |
| SlidingStackedWidgets.SlidingStackedWidget.ShowOnly | widgets/sliding_stacked_widgets.py:269-276 | the final loop shows only the page reached, raises it and puts every page at the corner |
| SlidingStackedWidgets.SlidingStackedWidget.ForceFinishAnimation | widgets/sliding_stacked_widgets.py:297-316 | the new state is `Transitions.ForceFinishAnimation` of the old one; keeps the invariant |
| SlidingStackedWidgets.SlidingStackedWidget.RunDeferred | widgets/sliding_stacked_widgets.py:279 | the oldest queued callback is removed and its request is made; keeps the invariant |
| SlidingStackedWidgets.SlidingStackedWidget.SetDirection | widgets/sliding_stacked_widgets.py:318-319 | only the axis changes |
| SlidingStackedWidgets.SlidingStackedWidget.SetSpeed | widgets/sliding_stacked_widgets.py:321-322 | only the speed changes |
| SlidingStackedWidgets.SlidingStackedWidget.SetAnimation | widgets/sliding_stacked_widgets.py:324-325 | only the curve changes |
| SlidingStackedWidgets.SlidingStackedWidget.SetWrap | widgets/sliding_stacked_widgets.py:327-328 | only the wrap flag changes |
| Transitions.Valid | widgets/sliding_stacked_widgets.py:100-276 | the invariant kept by every public operation: the animating flag and the group agree, while animating the group slides current out and next in with exactly the pair visible, while idle exactly the container's page is visible; established by `InitialIsValid` and kept by the `…KeepsValid` lemmas |
| Transitions.Initial | widgets/sliding_stacked_widgets.py:6-23 | the state the constructor sets up: page 0 current, next and the only visible page, no target, no group, defaults for speed, curve, axis and wrap; the constructor is proved to produce it |
| Transitions.SlideInNext | widgets/sliding_stacked_widgets.py:26-29 | next: a request for shown+1 when wrap is on or the shown page is not the last, otherwise nothing; its properties are `NextAtLastPage` and `NextInside` |
| Transitions.SlideInPrev | widgets/sliding_stacked_widgets.py:31-35 | prev: a request for shown-1 when wrap is on or the shown page is not page 0, otherwise nothing; its properties are `PrevAtFirstPage` and `PrevInside` |
| Transitions.SlideInIdx | widgets/sliding_stacked_widgets.py:37-42 | an indexed request is the request for the normalised index; see `Normalize` and `NormalizeIsResidue` |
| Transitions.SlideInWgt | widgets/sliding_stacked_widgets.py:44-66 | the request: ignored for an unknown page and for next_index, otherwise the target is overwritten and, only while idle, a slide from the container's page starts; its properties are `RequestForNextIsNoOp`, `RequestWhileAnimatingRetargets`, `RequestWhileIdleStarts` and `SlideInWgtKeepsValid` |
| Transitions.PrepareTransition | widgets/sliding_stacked_widgets.py:68-113 | records the pair and the direction, parks the incoming page at corner plus offset, and gives the visibility and stacking of the visibility loop; see `StartedVisible` and `StartedPositions` |
| Transitions.CleanupAnimation | widgets/sliding_stacked_widgets.py:221-231 | drops the group and moves the recorded transition pages to the corner |
| Transitions.StartAnimation | widgets/sliding_stacked_widgets.py:115-118 | cleans up a group still present, then starts the group |
| Transitions.StartGroup | widgets/sliding_stacked_widgets.py:120-195 | sets animating, stacks the pair over a lowered third target, moves the outgoing page to the corner and fixes both tweens; see `StartGroupStacking`, `StartedControl` and `StartedOrder` |
| Transitions.OnAnimationFinished | widgets/sliding_stacked_widgets.py:233-295 | the finish: nothing without a group, otherwise next_index is committed, only it is shown and raised, every page goes to the corner, and the target is cleared or queued again; see `FinishCommits` and `FinishWithoutGroupIsNoOp` |
| Transitions.ForceFinishAnimation | widgets/sliding_stacked_widgets.py:297-316 | the watchdog: nothing unless animating with a group, otherwise only the target is shown, raised and at the corner, committed to the container, with current, next and target left alone; see `ForceFinishSnapsToTarget` |
| Transitions.RunDeferred | widgets/sliding_stacked_widgets.py:279 | the event loop runs the oldest queued callback, a request for its page; see `PendingTargetIsFollowed` |
| Geometry.IncomingOffset | widgets/sliding_stacked_widgets.py:82-94 | where the incoming page is parked relative to the corner: one frame width or height ahead or behind along the axis; see `IncomingOffsetOnAxis` |
| Geometry.OutgoingEnd | widgets/sliding_stacked_widgets.py:154-175 | where the outgoing tween ends relative to the corner; see `OutgoingMirrorsIncoming` |
| Stacking.Raise | widgets/sliding_stacked_widgets.py:103-130 | `raise_`: the page taken out of the stack and put on top; see `RaiseIsOrder`, `RaiseTop` and `RaiseIdempotent` |
| Stacking.Lower | widgets/sliding_stacked_widgets.py:131-150 | `lower`: the page taken out of the stack and put at the bottom; see `LowerIsOrder` and `LowerIdempotent` |
| Transitions.PyMod | widgets/sliding_stacked_widgets.py:39-41 | Python's `%` for a positive count lies in `0 .. count-1` |
| Transitions.PyModIsResidue | widgets/sliding_stacked_widgets.py:39-41 | Python's `%` equals the mathematical residue for a positive count |
| Transitions.Normalize | widgets/sliding_stacked_widgets.py:37-42 | every index is mapped into `0 .. count-1` and an index already in range is unchanged |
| Transitions.NormalizeIsResidue | widgets/sliding_stacked_widgets.py:37-42 | both branches, `idx % count` above the range and `(idx + count) % count` below it, give the residue of idx |
| Transitions.NextAtLastPage | widgets/sliding_stacked_widgets.py:26-42 | at the last page next changes nothing without wrap and requests page 0 with wrap |
| Transitions.PrevAtFirstPage | widgets/sliding_stacked_widgets.py:31-42 | at page 0 prev changes nothing without wrap and requests the last page with wrap |
| Transitions.NextInside | widgets/sliding_stacked_widgets.py:26-29 | away from the last page next requests the following page |
| Transitions.PrevInside | widgets/sliding_stacked_widgets.py:31-35 | away from page 0 prev requests the preceding page |
| Transitions.RequestForNextIsNoOp | widgets/sliding_stacked_widgets.py:50-53 | a request for next_index changes nothing at all, animating or not |
| Transitions.RequestWhileAnimatingRetargets | widgets/sliding_stacked_widgets.py:55-61 | while animating a request only overwrites the target |
| Transitions.LatestRequestWins | widgets/sliding_stacked_widgets.py:55-61 | of two requests while animating only the later one survives, when the later one is not next_index (a request for next_index is ignored, see `RequestForNextIsNoOp`) |
| Transitions.ThreeRequestsCoalesce | widgets/sliding_stacked_widgets.py:55-61 | three requests while animating leave only the last as the target, when the last is not next_index |
| Transitions.RequestWhileIdleStarts | widgets/sliding_stacked_widgets.py:63-195 | an idle request starts one slide: pair and direction, exactly the pair visible (a single page when the shown page is requested after a forced finish), the outgoing page at the corner, the group's tweens, other positions unchanged; when the two pages differ, the higher index is on top with the other right below and the incoming page is parked one frame extent away |
| Transitions.StartedControl | widgets/sliding_stacked_widgets.py:68-98 | the control fields and the group after an idle request |
| Transitions.StartedVisible | widgets/sliding_stacked_widgets.py:100-113 | after an idle request exactly the shown page and the requested one are visible |
| Transitions.StartedOrderIs | widgets/sliding_stacked_widgets.py:100-132 | after an idle request the stack is the pair raised twice, first by the visibility loop and then by the stacking loop |
| Transitions.StartedOrder | widgets/sliding_stacked_widgets.py:100-132 | after an idle request the higher index of the pair is on top and, when the two pages differ, the other is right below |
| Transitions.PairOnTop | widgets/sliding_stacked_widgets.py:124-132 | raising a pair twice keeps a permutation with the pair on top in index order |
| Transitions.StartGroupStacking | widgets/sliding_stacked_widgets.py:124-150 | in any state the started group leaves the stack a permutation with the pair on top in index order, and a target outside the pair visible at the bottom |
| Transitions.StartedPositions | widgets/sliding_stacked_widgets.py:82-94 | after an idle request the outgoing page is at the corner, the incoming page is at corner plus offset and the others have not moved |
| Transitions.InitialIsValid | widgets/sliding_stacked_widgets.py:6-23 | the initial state satisfies the invariant |
| Transitions.SlideInWgtKeepsValid | widgets/sliding_stacked_widgets.py:44-66 | every request keeps the invariant: at most one animation, the group slides current to next, and the visible pages are the pair while animating and the container's page while idle |
| Transitions.StartKeepsValid | widgets/sliding_stacked_widgets.py:63-66 | starting a slide from an idle valid state gives a valid state |
| Transitions.SlideInIdxKeepsValid | widgets/sliding_stacked_widgets.py:37-42 | an indexed request keeps the invariant |
| Transitions.SlideInNextKeepsValid | widgets/sliding_stacked_widgets.py:26-29 | next keeps the invariant |
| Transitions.SlideInPrevKeepsValid | widgets/sliding_stacked_widgets.py:31-35 | prev keeps the invariant |
| Transitions.OnAnimationFinishedKeepsValid | widgets/sliding_stacked_widgets.py:233-295 | finishing keeps the invariant |
| Transitions.ForceFinishAnimationKeepsValid | widgets/sliding_stacked_widgets.py:297-316 | a forced finish keeps the invariant |
| Transitions.RunDeferredKeepsValid | widgets/sliding_stacked_widgets.py:279 | running a queued callback keeps the invariant |
| Transitions.FinishWithoutGroupIsNoOp | widgets/sliding_stacked_widgets.py:235-237 | without a group a finish changes nothing |
| Transitions.FinishCommits | widgets/sliding_stacked_widgets.py:251-295 | on finish next_index is committed in both places and the animation ends; exactly that page is visible and on top, every page is at the corner; the target is cleared iff it is the page reached, otherwise a follow-up request for it is queued |
| Transitions.ReRequestAfterFinishIsNoOp | widgets/sliding_stacked_widgets.py:251-256 | after a normal finish, requesting the page shown (by page or by index) changes nothing |
| Transitions.PendingTargetIsFollowed | widgets/sliding_stacked_widgets.py:277-279 | the queued follow-up is not suppressed by the guard: it starts the slide from the page reached to the pending target |
| Transitions.BurstLandsOnLastRequest | widgets/sliding_stacked_widgets.py:56-61 | three requests while animating, the last of them not next_index, lead to exactly one further slide, to the last page requested, which then lands there with nothing pending |
| Transitions.BurstEndingOnDestinationFollowsStaleTarget | widgets/sliding_stacked_widgets.py:50-61 | when the last request of a burst is next_index it is ignored: the earlier target survives, and after landing the deferred callback starts a slide to that earlier target |
| Transitions.RequestWhileIdleLands | widgets/sliding_stacked_widgets.py:63-66 | an idle request followed by its finish lands on the requested page, the only visible one, with nothing pending |
| Transitions.RoundTrip | widgets/sliding_stacked_widgets.py:251-295 | going to page k and back restores the visibility of every page and the container's index |
| Transitions.ForceFinishSnapsToTarget | widgets/sliding_stacked_widgets.py:297-316 | a forced finish does nothing unless animating with a group; otherwise only the target is visible, on top and at the corner, the container's index becomes the target and the animation ends, while current, next and target are untouched |
| Transitions.ForcedFinishIgnoresInterruptedDestination | widgets/sliding_stacked_widgets.py:297-316 | after a forced finish the hidden page the slide was heading to can no longer be requested |
| Transitions.ForcedFinishReRequestSlidesOntoItself | widgets/sliding_stacked_widgets.py:297-316 | after a forced finish a request for the page on display starts a slide of that page onto itself |
| Geometry.OutgoingMirrorsIncoming | widgets/sliding_stacked_widgets.py:154-175 | the outgoing end offset is the negation of the incoming start offset |
| Geometry.IncomingOffsetOnAxis | widgets/sliding_stacked_widgets.py:82-94 | the incoming offset lies on the configured axis, has the frame's extent and points forward iff current < next |
| Geometry.ParkedPagesMoveTogether | widgets/sliding_stacked_widgets.py:82-94 | measured from where each page was placed, both pages travel the same vector |
| Geometry.AnimatedPagesMoveTogetherIffCornerAtOrigin | widgets/sliding_stacked_widgets.py:186-195 | the two tweens move by the same vector iff the frame's corner is the origin |
| Stacking.RaiseIsOrder | widgets/sliding_stacked_widgets.py:103-106 | `raise_` keeps the stacking order a permutation of the pages |
| Stacking.LowerIsOrder | widgets/sliding_stacked_widgets.py:131-132 | `lower` keeps the stacking order a permutation of the pages |
| Stacking.RaisePairIsOrder | widgets/sliding_stacked_widgets.py:125-130 | raising the pair keeps a permutation |
| Stacking.RaisePairOverIsOrder | widgets/sliding_stacked_widgets.py:125-150 | the stacking of a starting slide keeps a permutation |
| Stacking.RaisePairOverShape | widgets/sliding_stacked_widgets.py:124-150 | the stacking of a starting slide is a permutation with the higher page of the pair on top, the lower one right below, and a third target at the bottom |
| Stacking.RaiseIdempotent | widgets/sliding_stacked_widgets.py:127-130 | raising the same page twice is raising it once |
| Stacking.LowerIdempotent | widgets/sliding_stacked_widgets.py:131-150 | lowering the same page twice is lowering it once |
| Stacking.RaiseLowerCommute | widgets/sliding_stacked_widgets.py:125-132 | raising one page and lowering another commute |
| Stacking.RaiseTop | widgets/sliding_stacked_widgets.py:103-106 | the page raised last is on top, and the former top is right below it |
| Stacking.RaisePairTop | widgets/sliding_stacked_widgets.py:125-130 | after raising a pair the higher index is on top and the lower is right below |
| Stacking.RaiseKeepsBottom | widgets/sliding_stacked_widgets.py:125-132 | raising another page leaves a lowered page at the bottom |
| Stacking.RaisePairKeepsBottom | widgets/sliding_stacked_widgets.py:125-132 | raising the pair leaves a lowered target at the bottom |
| Stacking.LowerAfterPair | widgets/sliding_stacked_widgets.py:131-150 | lowering the target again after the stacking loop changes nothing |
| Stacking.RaisePairStep | widgets/sliding_stacked_widgets.py:125-132 | one step of the stacking loop in index order |
| Stacking.LowerStep | widgets/sliding_stacked_widgets.py:131-132 | the step of the stacking loop that lowers the target |

## Left out

- Qt rendering is not modelled: the interpolated positions of `QPropertyAnimation`, the easing curves and the per-frame `valueChanged` callbacks into `_validateWidgetState` (lines 181-219). Only the start and end points of the two tweens are recorded, in `Slide`. The tweens are never applied to `pos`: while a slide runs, `pos` holds the positions set before the group starts, the outgoing page at the corner and the incoming page at corner plus `IncomingOffset`.
- ForceFinishAnimation: the hidden pages of the interrupted slide keep, in the model, the positions set when the slide started. The program leaves them wherever the tweens stopped. A normal finish moves every page to the corner, so there the two agree.
- `_validateWidgetState` (lines 208-219) runs only from those per-frame callbacks. It is left out with them. On each call it raises the page of `next_index` (or of `current_index`), so once value changes start the incoming page is on top whatever its index. `StartedOrder`, `StartGroupStacking` and `RequestWhileIdleStarts` describe the stack as `_startAnimation` leaves it, before any value change.
- The initial stacking order is arbitrary in the program. The model takes the pages in index order, bottom first, which puts the last page on top. No property depends on it: a page is raised whenever it is shown.
- The animation group and timer objects (lines 135-141, 239-241) are not modelled as objects. The group is the `Slide` record. The watchdog timer is never started, so its timeout is the environment-called `ForceFinishAnimation`.
- `QTimer.singleShot(0, …)` (line 279) is modelled as a queue of pending requests. Timing is not modelled.
- `setGeometry` on the incoming page (line 79) is left out: page sizes are not modelled.
- The frame rectangle is fixed at construction. Resizing is not modelled.
- A container with no pages is not modelled. The source divides by `count()` there and raises `ZeroDivisionError`, so the constructor requires n > 0.
- Adding or removing pages after construction is not modelled.
- Widget identity is reduced to a page index. `widget(i)` is the page with index i, and `indexOf` of a foreign widget is an index out of range.
- `MoveToCorner` visits the pages of a set in index order. The source iterates the set in hash order. The moves are independent, so the result is the same.
- `setCurrentIndex` is modelled as bookkeeping of the container's index only. Its own show and hide of pages is followed immediately by the widget's loops that set every page's visibility, so it is not modelled separately.
- `_is_forward` and `active_widgets` are not set in `__init__`. They start as `false` and the empty set here, and are read only after `_prepareTransition` or `_startAnimation` has set them.
- `convert_ui.py` and `setup.py` are not part of this model: they are a build script and packaging configuration.
