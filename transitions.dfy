// The transition controller of the sliding stacked widget, as values: a State
// holds everything the widget's methods read or write, and one function per
// method gives the state that method leaves behind. The class in
// sliding_stacked_widget.dfy is proved to follow these functions; the lemmas
// here prove what the controller promises about them.

module Transitions {
  import opened Geometry
  import opened Stacking

  datatype Option<T> = None | Some(value: T)

  /** The easing curve handed to the toolkit; only its identity matters here. */
  datatype Curve = OutCubic | CurveKind(kind: int)

  /** The two position tweens of the running animation group: the outgoing page
      moves from outFrom to outTo while the incoming page moves from inFrom to inTo. */
  datatype Slide = Slide(outgoing: int, incoming: int,
                         outFrom: Point, outTo: Point,
                         inFrom: Point, inTo: Point,
                         duration: int, curve: Curve)

  /** Everything the controller reads or writes.
      - axis, speed, curve, wrap: the configuration;
      - current, next, animating, target, forward: the navigation state
        (target None stands for the source's None);
      - group: the animation group, None when there is none;
      - transitionPages, activePages: the pages recorded for the current
        transition and the pages whose positions are reset on finish;
      - shown: the host container's own current index;
      - visible, order, pos: per-page visibility, stacking order (bottom
        first) and position;
      - deferred: callbacks queued with a zero-delay single-shot timer, as the
        page each one will request, oldest first. */
  datatype State = State(
    axis: Axis, speed: int, curve: Curve, wrap: bool, frame: Rect,
    current: int, next: int, animating: bool, target: Option<int>, forward: bool,
    group: Option<Slide>, transitionPages: set<int>, activePages: set<int>,
    shown: int, visible: seq<bool>, order: seq<int>, pos: seq<Point>,
    deferred: seq<int>)

  const DefaultSpeed: int := 500

  function Count(s: State): nat { |s.visible| }

  /** The shape every state has: indices name pages of the container. */
  ghost predicate WellFormed(s: State)
  {
    Shaped(s) && IndicesInRange(s)
  }

  ghost predicate Shaped(s: State)
  {
    |s.visible| > 0 && |s.pos| == |s.visible| && IsOrder(s.order, |s.visible|)
  }

  ghost predicate IndicesInRange(s: State)
  {
    var n := |s.visible|;
    0 <= s.current < n && 0 <= s.next < n && 0 <= s.shown < n
    && (s.target.Some? ==> 0 <= s.target.value < n)
    && (forall i :: i in s.transitionPages ==> 0 <= i < n)
    && (forall i :: i in s.activePages ==> 0 <= i < n)
    && (forall k :: 0 <= k < |s.deferred| ==> 0 <= s.deferred[k] < n)
    && (s.animating ==> s.target.Some?)
  }

  /** The invariant the public operations keep: the animating flag and the
      group agree (at most one animation); while animating the group slides
      `current` out and `next` in, the container still reports `current`, and
      exactly those two pages are visible; while idle exactly the page the
      container reports is visible. */
  ghost predicate Valid(s: State)
  {
    WellFormed(s)
    && (s.animating <==> s.group.Some?)
    && (s.animating ==>
          s.group.value.outgoing == s.current && s.group.value.incoming == s.next
          && s.shown == s.current
          && forall i :: 0 <= i < |s.visible| ==> (s.visible[i] <==> i == s.current || i == s.next))
    && (!s.animating ==>
          forall i :: 0 <= i < |s.visible| ==> (s.visible[i] <==> i == s.shown))
  }

  /** The state of a freshly populated widget with n pages: the first page is
      current and the only one shown, all pages sit at the frame's corner. */
  function Initial(n: nat, frame: Rect): State
  {
    State(Horizontal, DefaultSpeed, OutCubic, false, frame,
          0, 0, false, None, false,
          None, {}, {},
          0, Only(n, 0), Pages(n), AllAt(n, TopLeft(frame)),
          [])
  }

  /** Python's `a % n` for a positive n: a shifted by multiples of n into 0 .. n-1. */
  function PyMod(a: int, n: int): (r: int)
    requires n > 0
    ensures 0 <= r < n
    decreases a < 0, if a < 0 then -a else a
  {
    if a < 0 then PyMod(a + n, n)
    else if a >= n then PyMod(a - n, n)
    else a
  }

  /** Index normalisation of slideInIdx: an index above the last page is taken
      modulo the count, a negative one is shifted by the count first. */
  function Normalize(idx: int, count: int): (r: int)
    requires count > 0
    ensures 0 <= r < count
    ensures 0 <= idx < count ==> r == idx
  {
    if idx > count - 1 then PyMod(idx, count)
    else if idx < 0 then PyMod(idx + count, count)
    else idx
  }

  /** Python's remainder agrees with Dafny's (Euclidean) one for a positive divisor. */
  lemma {:induction false} PyModIsResidue(a: int, n: int)
    requires n > 0
    ensures PyMod(a, n) == a % n
    decreases a < 0, if a < 0 then -a else a
  {
    if a < 0 {
      PyModIsResidue(a + n, n);
      ModShift(a, n);
    } else if a >= n {
      PyModIsResidue(a - n, n);
      ModShift(a - n, n);
    } else {
      ModUnique(a, n, 0, a);
    }
  }

  /** Every request lands on the residue of the index modulo the page count. */
  lemma NormalizeIsResidue(idx: int, count: int)
    requires count > 0
    ensures Normalize(idx, count) == idx % count
  {
    if idx > count - 1 {
      PyModIsResidue(idx, count);
    } else if idx < 0 {
      PyModIsResidue(idx + count, count);
      ModShift(idx, count);
    } else {
      ModUnique(idx, count, 0, idx);
    }
  }

  /** Shifting by the divisor does not change a remainder. */
  lemma ModShift(a: int, n: int)
    requires n > 0
    ensures (a + n) % n == a % n
  {
    ModUnique(a + n, n, a / n + 1, a % n);
  }

  lemma ModUnique(a: int, n: int, q: int, m: int)
    requires n > 0 && 0 <= m < n && a == n * q + m
    ensures a % n == m
  {
    var q0, m0 := a / n, a % n;
    var d := q - q0;
    assert n * d == m0 - m by {
      assert n * q == n * q0 + n * d;
    }
    if d >= 1 {
      MulAtLeast(n, d);
    } else if d <= -1 {
      MulAtLeast(n, -d);
    }
  }

  lemma {:induction false} MulAtLeast(n: int, d: int)
    requires n > 0 && d >= 1
    ensures n * d >= n
  {
    assert n * d == n * (d - 1) + n;
    if d > 1 { MulAtLeast(n, d - 1); }
  }

  /** `s` with the element at i replaced by v; unchanged when i is no index of `s`. */
  function Put<T>(s: seq<T>, i: int, v: T): (r: seq<T>)
    ensures |r| == |s|
    ensures forall k :: 0 <= k < |s| ==> r[k] == if k == i then v else s[k]
  {
    if 0 <= i < |s| then s[i := v] else s
  }

  /** The visibility of n pages of which only page p is shown. */
  function Only(n: nat, p: int): (r: seq<bool>)
    ensures |r| == n
    ensures forall i :: 0 <= i < n ==> (r[i] <==> i == p)
  {
    seq(n, i => i == p)
  }

  /** The visibility a transition from c to nx sets up: the pair and the target shown. */
  function ShownFor(n: nat, c: int, nx: int, target: Option<int>): (r: seq<bool>)
    ensures |r| == n
    ensures forall i :: 0 <= i < n ==> (r[i] <==> i == c || i == nx || target == Some(i))
  {
    seq(n, i => i == c || i == nx || target == Some(i))
  }

  /** n pages all at the point p. */
  function AllAt(n: nat, p: Point): (r: seq<Point>)
    ensures |r| == n
    ensures forall i :: 0 <= i < n ==> r[i] == p
  {
    seq(n, i => p)
  }

  /** `ps` with the pages of `pages` moved to the point p. */
  function AtCorner(ps: seq<Point>, pages: set<int>, p: Point): (r: seq<Point>)
    ensures |r| == |ps|
    ensures forall i :: 0 <= i < |ps| ==> r[i] == if i in pages then p else ps[i]
  {
    seq(|ps|, i requires 0 <= i < |ps| => if i in pages then p else ps[i])
  }

  function SlideInNext(s: State): State
    requires Count(s) > 0
  {
    if s.wrap || s.shown < Count(s) - 1 then SlideInIdx(s, s.shown + 1) else s
  }

  function SlideInPrev(s: State): State
    requires Count(s) > 0
  {
    if s.wrap || s.shown > 0 then SlideInIdx(s, s.shown - 1) else s
  }

  function SlideInIdx(s: State, idx: int): State
    requires Count(s) > 0
  {
    SlideInWgt(s, Normalize(idx, Count(s)))
  }

  /** A request for `page`; a page outside the container stands for a widget
      the container does not hold (indexOf returns -1). */
  function SlideInWgt(s: State, page: int): State
  {
    if !(0 <= page < Count(s)) || page == s.next then s
    else if s.animating then s.(target := Some(page))
    else StartAnimation(PrepareTransition(s.(target := Some(page)), s.shown, page))
  }

  /** Records the pair, parks the incoming page one frame extent away along the
      axis, and shows and raises the pair (and shows the target, if another page). */
  function PrepareTransition(s: State, c: int, nx: int): State
  {
    var fwd := c < nx;
    s.(current := c, next := nx, forward := fwd,
       pos := Put(s.pos, nx, Add(TopLeft(s.frame), IncomingOffset(s.axis, fwd, s.frame))),
       transitionPages := {c, nx},
       visible := ShownFor(|s.visible|, c, nx, s.target),
       order := RaisePair(s.order, c, nx))
  }

  /** Stops the group and puts the pages of the recorded transition back at the corner. */
  function CleanupAnimation(s: State): State
  {
    s.(group := None,
       pos := AtCorner(s.pos, s.transitionPages, TopLeft(s.frame)))
  }

  /** Starts the group, after stopping a group still running. */
  function StartAnimation(s: State): State
    requires s.target.Some?
  {
    StartGroup(if s.group.Some? then CleanupAnimation(s) else s)
  }

  /** The pair on top of the stack, a target outside the pair shown at the
      bottom, the outgoing page from the corner to the corner plus its end
      offset, the incoming page from the bare incoming offset to the corner. */
  function StartGroup(s: State): State
    requires s.target.Some?
  {
    var c, nx, t := s.current, s.next, s.target.value;
    var extra := t != c && t != nx;
    var corner := TopLeft(s.frame);
    s.(animating := true,
       order := RaisePairOver(s.order, c, nx, t),
       group := Some(Slide(c, nx,
                           corner, Add(corner, OutgoingEnd(s.axis, s.forward, s.frame)),
                           IncomingOffset(s.axis, s.forward, s.frame), corner,
                           s.speed, s.curve)),
       activePages := if extra then {c, nx, t} else {c, nx},
       visible := if extra then Put(s.visible, t, true) else s.visible,
       pos := Put(s.pos, c, corner))
  }

  /** The group reports completion: commit next_index, show and raise only it,
      put every page at the corner; a target other than the page reached is
      requested again through a deferred callback, otherwise it is cleared. */
  function OnAnimationFinished(s: State): State
  {
    if s.group.None? then s
    else
      var ct := s.next;
      var done := s.(group := None, current := ct, shown := ct, animating := false,
                     activePages := {}, visible := Only(|s.visible|, ct),
                     order := Raise(s.order, ct), pos := AllAt(|s.pos|, TopLeft(s.frame)));
      if s.target.Some? && s.target.value != ct then done.(deferred := s.deferred + [s.target.value])
      else done.(target := None)
  }

  /** The watchdog's action: jump to the target page. It updates neither
      current, next nor target. */
  function ForceFinishAnimation(s: State): State
    requires s.animating ==> s.target.Some?
  {
    if s.animating && s.group.Some? then
      var t := s.target.value;
      s.(group := None, animating := false, shown := t,
         pos := Put(s.pos, t, TopLeft(s.frame)),
         visible := Only(|s.visible|, t),
         order := Raise(s.order, t))
    else s
  }

  /** The event loop runs the oldest deferred callback: a request for its page. */
  function RunDeferred(s: State): State
  {
    if s.deferred == [] then s
    else SlideInWgt(s.(deferred := s.deferred[1..]), s.deferred[0])
  }

  // ---------------------------------------------------------------------
  // The invariant is established and kept.

  lemma InitialIsValid(n: nat, frame: Rect)
    requires n > 0
    ensures Valid(Initial(n, frame))
  {
  }

  lemma SlideInWgtKeepsValid(s: State, page: int)
    requires Valid(s)
    ensures Valid(SlideInWgt(s, page))
  {
    if 0 <= page < Count(s) && page != s.next && !s.animating {
      StartKeepsValid(s, page);
    }
  }

  lemma StartKeepsValid(s: State, page: int)
    requires Valid(s) && !s.animating && 0 <= page < Count(s) && page != s.next
    ensures Valid(SlideInWgt(s, page))
  {
    var r := SlideInWgt(s, page);
    StartedControl(s, page);
    StartedVisible(s, page);
    StartedOrderIs(s, page);
    StartedPositions(s, page);
    assert |r.pos| == Count(s);
    RaisePairIsOrder(s.order, Count(s), s.shown, page);
    RaisePairIsOrder(RaisePair(s.order, s.shown, page), Count(s), s.shown, page);
    assert Shaped(r);
    assert r.transitionPages == {s.shown, page} && r.activePages == {s.shown, page};
    assert IndicesInRange(r);
  }

  lemma SlideInIdxKeepsValid(s: State, idx: int)
    requires Valid(s)
    ensures Valid(SlideInIdx(s, idx))
  {
    SlideInWgtKeepsValid(s, Normalize(idx, Count(s)));
  }

  lemma SlideInNextKeepsValid(s: State)
    requires Valid(s)
    ensures Valid(SlideInNext(s))
  {
    if s.wrap || s.shown < Count(s) - 1 {
      SlideInIdxKeepsValid(s, s.shown + 1);
    }
  }

  lemma SlideInPrevKeepsValid(s: State)
    requires Valid(s)
    ensures Valid(SlideInPrev(s))
  {
    if s.wrap || s.shown > 0 {
      SlideInIdxKeepsValid(s, s.shown - 1);
    }
  }

  lemma OnAnimationFinishedKeepsValid(s: State)
    requires Valid(s)
    ensures Valid(OnAnimationFinished(s))
  {
    if s.group.Some? {
      var r := OnAnimationFinished(s);
      RaiseIsOrder(s.order, Count(s), s.next);
      assert r.order == Raise(s.order, s.next) && |r.visible| == Count(s) && |r.pos| == Count(s);
      assert Shaped(r);
      assert r.deferred == s.deferred || r.deferred == s.deferred + [s.target.value];
      assert IndicesInRange(r);
      assert forall i :: 0 <= i < |r.visible| ==> (r.visible[i] <==> i == r.shown);
    }
  }

  lemma ForceFinishAnimationKeepsValid(s: State)
    requires Valid(s)
    ensures Valid(ForceFinishAnimation(s))
  {
    if s.animating {
      RaiseIsOrder(s.order, Count(s), s.target.value);
    }
  }

  lemma RunDeferredKeepsValid(s: State)
    requires Valid(s)
    ensures Valid(RunDeferred(s))
  {
    if s.deferred != [] {
      SlideInWgtKeepsValid(s.(deferred := s.deferred[1..]), s.deferred[0]);
    }
  }

  // ---------------------------------------------------------------------
  // Navigation: next and prev at the ends of the container.

  /** With wrap disabled next at the last page changes nothing; with wrap
      enabled it requests the first page. */
  lemma NextAtLastPage(s: State)
    requires WellFormed(s) && s.shown == Count(s) - 1
    ensures !s.wrap ==> SlideInNext(s) == s
    ensures s.wrap ==> SlideInNext(s) == SlideInWgt(s, 0)
  {
    if s.wrap {
      assert PyMod(Count(s), Count(s)) == PyMod(0, Count(s)) == 0;
      assert Normalize(s.shown + 1, Count(s)) == 0;
    }
  }

  /** With wrap disabled prev at the first page changes nothing; with wrap
      enabled it requests the last page. */
  lemma PrevAtFirstPage(s: State)
    requires WellFormed(s) && s.shown == 0
    ensures !s.wrap ==> SlideInPrev(s) == s
    ensures s.wrap ==> SlideInPrev(s) == SlideInWgt(s, Count(s) - 1)
  {
    if s.wrap {
      assert PyMod(Count(s) - 1, Count(s)) == Count(s) - 1;
      assert Normalize(s.shown - 1, Count(s)) == Count(s) - 1;
    }
  }

  /** Away from the last page next requests the following page, whatever the wrap flag. */
  lemma NextInside(s: State)
    requires WellFormed(s) && s.shown < Count(s) - 1
    ensures SlideInNext(s) == SlideInWgt(s, s.shown + 1)
  {
    assert SlideInNext(s) == SlideInIdx(s, s.shown + 1);
    assert Normalize(s.shown + 1, Count(s)) == s.shown + 1;
  }

  /** Away from the first page prev requests the preceding page, whatever the wrap flag. */
  lemma PrevInside(s: State)
    requires WellFormed(s) && s.shown > 0
    ensures SlideInPrev(s) == SlideInWgt(s, s.shown - 1)
  {
    assert SlideInPrev(s) == SlideInIdx(s, s.shown - 1);
    assert Normalize(s.shown - 1, Count(s)) == s.shown - 1;
  }

  // ---------------------------------------------------------------------
  // Requests: the redundant-request guard and coalescing.

  /** A request for the page the controller is heading for (or last reached)
      changes nothing, animating or not, and leaves the target alone. */
  lemma RequestForNextIsNoOp(s: State)
    requires WellFormed(s)
    ensures SlideInWgt(s, s.next) == s
  {
  }

  /** While animating a request starts nothing: it only overwrites the target. */
  lemma RequestWhileAnimatingRetargets(s: State, page: int)
    requires WellFormed(s) && s.animating && 0 <= page < Count(s) && page != s.next
    ensures SlideInWgt(s, page) == s.(target := Some(page))
  {
  }

  /** Of two requests while animating only the later survives, whatever the first was. */
  lemma LatestRequestWins(s: State, a: int, b: int)
    requires WellFormed(s) && s.animating
    requires 0 <= b < Count(s) && b != s.next
    ensures SlideInWgt(SlideInWgt(s, a), b) == s.(target := Some(b))
  {
  }

  /** A request while idle starts one transition from the page the container
      shows: that page and the requested one are the only visible pages, the
      higher-numbered of the two is on top with the other right below, the
      incoming page is parked one frame extent away on the side given by the
      direction of travel, and the group slides both pages. */
  lemma RequestWhileIdleStarts(s: State, page: int)
    requires Valid(s) && !s.animating && 0 <= page < Count(s) && page != s.next
    ensures var r := SlideInWgt(s, page);
      var c := s.shown;
      var fwd := c < page;
      var corner := TopLeft(s.frame);
      r.animating && r.current == c && r.next == page && r.target == Some(page)
      && r.shown == c && r.forward == fwd && r.deferred == s.deferred
      && r.group == Some(Slide(c, page,
                               corner, Add(corner, OutgoingEnd(s.axis, fwd, s.frame)),
                               IncomingOffset(s.axis, fwd, s.frame), corner,
                               s.speed, s.curve))
      && |r.visible| == Count(s)
      && (forall i :: 0 <= i < Count(s) ==> (r.visible[i] <==> i == c || i == page))
      && |r.order| == Count(s)
      && r.order[Count(s) - 1] == (if c <= page then page else c)
      && (c != page ==> r.order[Count(s) - 2] == (if c <= page then c else page))
      && |r.pos| == Count(s) && r.pos[c] == corner
      && (page != c ==> r.pos[page] == Add(corner, IncomingOffset(s.axis, fwd, s.frame)))
      && (forall i :: 0 <= i < Count(s) && i != c && i != page ==> r.pos[i] == s.pos[i])
  {
    StartedControl(s, page);
    StartedVisible(s, page);
    StartedOrder(s, page);
    StartedPositions(s, page);
  }

  lemma StartedControl(s: State, page: int)
    requires s.group.None? && !s.animating && 0 <= page < Count(s) && page != s.next
    ensures var r := SlideInWgt(s, page);
      var c := s.shown;
      var fwd := c < page;
      var corner := TopLeft(s.frame);
      r.animating && r.current == c && r.next == page && r.target == Some(page)
      && r.shown == c && r.forward == fwd && r.deferred == s.deferred
      && r.group == Some(Slide(c, page,
                               corner, Add(corner, OutgoingEnd(s.axis, fwd, s.frame)),
                               IncomingOffset(s.axis, fwd, s.frame), corner,
                               s.speed, s.curve))
  {
  }

  lemma StartedVisible(s: State, page: int)
    requires s.group.None? && !s.animating && 0 <= page < Count(s) && page != s.next
    ensures var r := SlideInWgt(s, page);
      |r.visible| == Count(s)
      && (forall i :: 0 <= i < Count(s) ==> (r.visible[i] <==> i == s.shown || i == page))
  {
  }

  lemma StartedOrder(s: State, page: int)
    requires Valid(s) && !s.animating && 0 <= page < Count(s) && page != s.next
    ensures var r := SlideInWgt(s, page);
      var c := s.shown;
      |r.order| == Count(s)
      && r.order[Count(s) - 1] == (if c <= page then page else c)
      && (c != page ==> r.order[Count(s) - 2] == (if c <= page then c else page))
  {
    StartedOrderIs(s, page);
    PairOnTop(s.order, Count(s), s.shown, page);
  }

  lemma StartedOrderIs(s: State, page: int)
    requires s.group.None? && !s.animating && 0 <= page < Count(s) && page != s.next
    ensures SlideInWgt(s, page).order == RaisePair(RaisePair(s.order, s.shown, page), s.shown, page)
  {
    var p := PrepareTransition(s.(target := Some(page)), s.shown, page);
    assert p.group.None?;
    assert SlideInWgt(s, page) == StartGroup(p);
  }

  lemma PairOnTop(z: seq<int>, n: nat, c: int, page: int)
    requires IsOrder(z, n) && 0 <= c < n && 0 <= page < n
    ensures var r := RaisePair(RaisePair(z, c, page), c, page);
      |r| == n
      && r[n - 1] == (if c <= page then page else c)
      && (c != page ==> r[n - 2] == (if c <= page then c else page))
  {
    RaisePairIsOrder(z, n, c, page);
    RaisePairIsOrder(RaisePair(z, c, page), n, c, page);
    RaisePairTop(RaisePair(z, c, page), c, page);
  }

  /** Whatever state the group is started in, the stack stays a permutation
      of the pages with the pair on top in index order and, when the target
      is a third page, that page at the bottom. */
  lemma StartGroupStacking(s: State)
    requires WellFormed(s) && s.target.Some?
    ensures var r := StartGroup(s);
      var c, nx, t := s.current, s.next, s.target.value;
      IsOrder(r.order, Count(s))
      && r.order[Count(s) - 1] == (if c <= nx then nx else c)
      && (c != nx ==> r.order[Count(s) - 2] == (if c <= nx then c else nx))
      && (t != c && t != nx ==> r.order[0] == t && r.visible[t])
  {
    RaisePairOverShape(s.order, Count(s), s.current, s.next, s.target.value);
  }

  lemma StartedPositions(s: State, page: int)
    requires s.group.None? && !s.animating && 0 <= page < Count(s) && page != s.next
    requires |s.pos| == Count(s) && 0 <= s.shown < Count(s)
    ensures var r := SlideInWgt(s, page);
      var c := s.shown;
      var corner := TopLeft(s.frame);
      |r.pos| == Count(s) && r.pos[c] == corner
      && (page != c ==> r.pos[page] == Add(corner, IncomingOffset(s.axis, c < page, s.frame)))
      && (forall i :: 0 <= i < Count(s) && i != c && i != page ==> r.pos[i] == s.pos[i])
  {
  }

  // ---------------------------------------------------------------------
  // Finishing.

  /** Without a group a finish notification changes nothing. */
  lemma FinishWithoutGroupIsNoOp(s: State)
    requires WellFormed(s) && s.group.None?
    ensures OnAnimationFinished(s) == s
  {
  }

  /** On finish next_index is committed both in the controller and in the
      container, the animation ends, exactly that page is visible and on top,
      every page is back at the frame's corner, and the target is cleared
      exactly when it is the page reached; otherwise a deferred request for it
      is queued. */
  lemma FinishCommits(s: State)
    requires WellFormed(s) && s.group.Some?
    ensures var r := OnAnimationFinished(s);
      r.current == s.next && r.shown == s.next && r.next == s.next
      && !r.animating && r.group.None?
      && |r.visible| == Count(s)
      && (forall i :: 0 <= i < Count(s) ==> (r.visible[i] <==> i == s.next))
      && |r.order| == Count(s) && r.order[Count(s) - 1] == s.next
      && (forall i :: 0 <= i < |r.pos| ==> r.pos[i] == TopLeft(s.frame))
      && (r.target.None? <==> (s.target.None? || s.target == Some(s.next)))
      && (r.target.Some? ==> r.target == s.target)
      && r.deferred == (if s.target.Some? && s.target.value != s.next
                        then s.deferred + [s.target.value] else s.deferred)
  {
    RaiseIsOrder(s.order, Count(s), s.next);
    RaiseTop(s.order, s.next);
  }

  /** After a finish, requesting the page now shown is a no-op: the guard sees
      it as next_index. */
  lemma ReRequestAfterFinishIsNoOp(s: State)
    requires WellFormed(s) && s.group.Some?
    ensures var r := OnAnimationFinished(s);
      SlideInWgt(r, r.shown) == r && SlideInIdx(r, r.shown) == r
  {
  }

  /** A target left pending at finish is not suppressed by the guard: the
      deferred request starts the transition toward it from the page reached. */
  lemma PendingTargetIsFollowed(s: State)
    requires Valid(s) && s.group.Some? && s.deferred == []
    requires s.target.Some? && s.target.value != s.next
    ensures var r := RunDeferred(OnAnimationFinished(s));
      r.animating && r.current == s.next && r.shown == s.next
      && r.next == s.target.value && r.target == s.target && r.deferred == []
  {
    var f := OnAnimationFinished(s);
    OnAnimationFinishedKeepsValid(s);
    assert f.deferred == [s.target.value];
    var g := f.(deferred := f.deferred[1..]);
    assert g.deferred == [];
    RequestWhileIdleStarts(g, s.target.value);
  }

  /** Three requests in a row while animating lead to exactly one further
      transition, toward the last one requested, which then lands there. */
  lemma BurstLandsOnLastRequest(s: State, a: int, b: int, c: int)
    requires Valid(s) && s.animating && s.deferred == []
    requires 0 <= c < Count(s) && c != s.next
    ensures var busy := SlideInWgt(SlideInWgt(SlideInWgt(s, a), b), c);
      var second := RunDeferred(OnAnimationFinished(busy));
      var last := OnAnimationFinished(second);
      busy == s.(target := Some(c))
      && second.animating && second.current == s.next && second.next == c
      && last.shown == c && !last.animating && last.target.None? && last.deferred == []
      && |last.visible| == Count(s)
      && forall i :: 0 <= i < Count(s) ==> (last.visible[i] <==> i == c)
  {
    var busy := SlideInWgt(SlideInWgt(SlideInWgt(s, a), b), c);
    ThreeRequestsCoalesce(s, a, b, c);
    assert Valid(busy);
    PendingTargetIsFollowed(busy);
    var second := RunDeferred(OnAnimationFinished(busy));
    OnAnimationFinishedKeepsValid(busy);
    RunDeferredKeepsValid(OnAnimationFinished(busy));
    FinishCommits(second);
  }

  lemma ThreeRequestsCoalesce(s: State, a: int, b: int, c: int)
    requires WellFormed(s) && s.animating
    requires 0 <= c < Count(s) && c != s.next
    ensures SlideInWgt(SlideInWgt(SlideInWgt(s, a), b), c) == s.(target := Some(c))
  {
    var s1 := SlideInWgt(s, a);
    assert s1.animating && s1.next == s.next;
    LatestRequestWins(s1, b, c);
    assert s1.(target := Some(c)) == s.(target := Some(c));
  }

  /** A burst whose last request is the page being slid to does not land
      there: the guard ignores that request, the earlier target survives, and
      once the slide lands the deferred callback slides on to that target. */
  lemma BurstEndingOnDestinationFollowsStaleTarget(s: State, a: int, b: int)
    requires Valid(s) && s.animating && s.deferred == []
    requires 0 <= b < Count(s) && b != s.next
    ensures var busy := SlideInWgt(SlideInWgt(SlideInWgt(s, a), b), s.next);
      var second := RunDeferred(OnAnimationFinished(busy));
      busy == s.(target := Some(b))
      && second.animating && second.current == s.next && second.next == b
      && second.target == Some(b)
  {
    var s2 := SlideInWgt(SlideInWgt(s, a), b);
    LatestRequestWins(s, a, b);
    RequestForNextIsNoOp(s2);
    assert Valid(s2);
    PendingTargetIsFollowed(s2);
  }

  /** A request while idle, run to completion, lands on the requested page:
      the container reports it, it is the only visible page, and no target or
      deferred request is left behind. */
  lemma RequestWhileIdleLands(s: State, k: int)
    requires Valid(s) && !s.animating && 0 <= k < Count(s) && k != s.next
    ensures var r := OnAnimationFinished(SlideInWgt(s, k));
      Valid(r) && r.shown == k && r.current == k && r.next == k && !r.animating
      && r.target.None? && r.deferred == s.deferred && |r.visible| == Count(s)
      && forall i :: 0 <= i < Count(s) ==> (r.visible[i] <==> i == k)
  {
    var go := SlideInWgt(s, k);
    StartedControl(s, k);
    SlideInWgtKeepsValid(s, k);
    FinishCommits(go);
    OnAnimationFinishedKeepsValid(go);
  }

  /** Going to page k and back to the page shown before, each transition run
      to completion, restores the visible state: the same single page shown. */
  lemma RoundTrip(s: State, k: int)
    requires Valid(s) && !s.animating && s.next == s.shown
    requires 0 <= k < Count(s) && k != s.shown
    ensures var there := OnAnimationFinished(SlideInWgt(s, k));
      var back := OnAnimationFinished(SlideInWgt(there, s.shown));
      there.shown == k && back.shown == s.shown && back.visible == s.visible
      && !back.animating && back.target.None? && back.deferred == s.deferred
      && back.current == s.shown && back.next == s.shown
  {
    RequestWhileIdleLands(s, k);
    var there := OnAnimationFinished(SlideInWgt(s, k));
    RequestWhileIdleLands(there, s.shown);
    var back := OnAnimationFinished(SlideInWgt(there, s.shown));
    assert |back.visible| == |s.visible|;
    assert forall i :: 0 <= i < |s.visible| ==> back.visible[i] == s.visible[i];
    assert back.visible == s.visible;
  }

  // ---------------------------------------------------------------------
  // The watchdog's forced finish.

  /** A forced finish does nothing unless animating with a live group; then it
      shows only the target, on top and at the corner, makes it the
      container's index and ends the animation, leaving current, next and
      target as they were. */
  lemma ForceFinishSnapsToTarget(s: State)
    requires WellFormed(s)
    ensures var r := ForceFinishAnimation(s);
      (!(s.animating && s.group.Some?) ==> r == s)
      && (s.animating && s.group.Some? ==>
            r.shown == s.target.value && !r.animating && r.group.None?
            && |r.visible| == Count(s)
            && (forall i :: 0 <= i < Count(s) ==> (r.visible[i] <==> i == s.target.value))
            && |r.order| == Count(s) && r.order[Count(s) - 1] == s.target.value
            && r.pos[s.target.value] == TopLeft(s.frame)
            && r.current == s.current && r.next == s.next && r.target == s.target)
  {
    if s.animating && s.group.Some? {
      RaiseIsOrder(s.order, Count(s), s.target.value);
      RaiseTop(s.order, s.target.value);
    }
  }

  /** Because a forced finish leaves next_index stale, a later request for the
      page the interrupted slide was heading to is ignored by the guard,
      although that page is hidden and not the container's index. */
  lemma ForcedFinishIgnoresInterruptedDestination(s: State)
    requires Valid(s) && s.animating && s.target.value != s.next
    ensures var r := ForceFinishAnimation(s);
      !r.visible[s.next] && r.shown != s.next && SlideInWgt(r, s.next) == r
  {
  }

  /** After a forced finish, requesting the page on display is no longer a
      no-op: it starts a slide of that page onto itself. */
  lemma ForcedFinishReRequestSlidesOntoItself(s: State)
    requires Valid(s) && s.animating && s.target.value != s.next
    ensures var r := ForceFinishAnimation(s);
      var q := SlideInWgt(r, r.shown);
      q.animating && q.current == r.shown && q.next == r.shown
  {
    ForceFinishAnimationKeepsValid(s);
    RequestWhileIdleStarts(ForceFinishAnimation(s), s.target.value);
  }
}
