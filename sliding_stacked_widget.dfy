// The sliding stacked widget as an object. Its fields follow the groups the
// widget's constructor sets up (the animation parameters, the state tracking
// and the animation group with the transition tracking), plus the host
// container's per-page visibility, stacking order and positions, and each
// method updates them step by step, as the widget's methods do. Every method
// is proved to leave behind exactly the state the matching function of module
// Transitions computes from the state it started in, so the properties proved
// there hold of the object.

module SlidingStackedWidgets {
  import opened Geometry
  import opened Stacking
  import opened Transitions

  /** The state tracking: the pair of the transition under way, whether an
      animation is running and the page last requested. */
  datatype Tracking = Tracking(current: int, next: int, animating: bool, target: Option<int>)

  /** The animation group, the direction of the slide and the pages recorded
      for the transition and for the running animation. */
  datatype Animation = Animation(group: Option<Slide>, forward: bool,
                                 transitionPages: set<int>, activePages: set<int>)

  /** The host container's side of the state: the index it reports as
      current and, per page, whether it is shown, the stacking order of the
      pages (bottom first) and each page's position. */
  datatype Host = Host(shown: int, visible: seq<bool>, order: seq<int>, pos: seq<Point>)

  class SlidingStackedWidget {
    // animation parameters
    var axis: Axis
    var speed: int
    var curve: Curve
    var wrap: bool
    const frame: Rect

    var track: Tracking
    var anim: Animation
    var host: Host

    // zero-delay callbacks queued on the event loop, as the page each requests
    var deferred: seq<int>

    /** The whole object as a value of the state the functions of Transitions model. */
    ghost function Snap(): State
      reads this
    {
      State(axis, speed, curve, wrap, frame,
            track.current, track.next, track.animating, track.target, anim.forward,
            anim.group, anim.transitionPages, anim.activePages,
            host.shown, host.visible, host.order, host.pos,
            deferred)
    }

    ghost predicate Valid()
      reads this
    {
      Transitions.Valid(Snap())
    }

    /** A widget over a container holding n pages, the first of them current. */
    constructor (n: nat, frame: Rect)
      requires n > 0
      ensures Valid()
      ensures Snap() == Initial(n, frame)
    {
      axis, speed, curve, wrap := Horizontal, DefaultSpeed, OutCubic, false;
      this.frame := frame;
      track := Tracking(0, 0, false, None);
      anim := Animation(None, false, {}, {});
      host := Host(0, Only(n, 0), Pages(n), AllAt(n, TopLeft(frame)));
      deferred := [];
      new;
      InitialIsValid(n, frame);
    }

    method SlideInNext()
      requires Valid()
      modifies this
      ensures Valid()
      ensures Snap() == Transitions.SlideInNext(old(Snap()))
    {
      ghost var s0 := Snap();
      var now := host.shown;
      if wrap || now < |host.visible| - 1 {
        SlideInIdx(now + 1);
        NextRequestsFollowing(s0, Snap());
      }
    }

    method SlideInPrev()
      requires Valid()
      modifies this
      ensures Valid()
      ensures Snap() == Transitions.SlideInPrev(old(Snap()))
    {
      ghost var s0 := Snap();
      var now := host.shown;
      if wrap || now > 0 {
        SlideInIdx(now - 1);
        PrevRequestsPreceding(s0, Snap());
      }
    }

    method SlideInIdx(idx: int)
      requires Valid()
      modifies this
      ensures Valid()
      ensures Snap() == Transitions.SlideInIdx(old(Snap()), idx)
    {
      SlideInWgt(Normalize(idx, |host.visible|));
    }

    /** A request for a page; an index outside the container stands for a
        widget the container does not hold. */
    method SlideInWgt(page: int)
      requires Valid()
      modifies this
      ensures Valid()
      ensures Snap() == Transitions.SlideInWgt(old(Snap()), page)
    {
      ghost var s0 := Snap();
      if 0 <= page < |host.visible| && page != track.next {
        track := track.(target := Some(page));
        if !track.animating {
          var c := host.shown;
          PrepareTransition(c, page);
          StartAnimation();
        }
      }
      RequestLeavesValid(s0, page, Snap());
    }

    /** Records the pair, parks the incoming page one frame extent away and
        shows and raises the pages of the transition. */
    method PrepareTransition(c: int, nx: int)
      requires 0 <= c < |host.visible| && 0 <= nx < |host.visible| && |host.pos| == |host.visible|
      modifies this
      ensures Snap() == Transitions.PrepareTransition(old(Snap()), c, nx)
    {
      var fwd := c < nx;
      var p := host.pos[nx := Add(TopLeft(frame), IncomingOffset(axis, fwd, frame))];
      var v, z := ShowTransitionPages(c, nx);
      track := track.(current := c, next := nx);
      anim := anim.(forward := fwd, transitionPages := {c, nx});
      host := host.(visible := v, order := z, pos := p);
    }

    /** The visibility loop of a transition being prepared: the pair shown
        and raised in index order, a target outside the pair shown, every
        other page hidden. */
    method ShowTransitionPages(c: int, nx: int) returns (v: seq<bool>, z: seq<int>)
      requires 0 <= c < |host.visible| && 0 <= nx < |host.visible|
      ensures v == ShownFor(|host.visible|, c, nx, track.target)
      ensures z == RaisePair(host.order, c, nx)
    {
      var lo, hi := if c <= nx then c else nx, if c <= nx then nx else c;
      var order, target := host.order, track.target;
      v, z := host.visible, order;
      for i := 0 to |v|
        invariant |v| == |host.visible|
        invariant forall k :: 0 <= k < i ==> v[k] == (k == c || k == nx || target == Some(k))
        invariant z == RaiseIfBelow(RaiseIfBelow(order, lo, i), hi, i)
      {
        RaisePairStep(order, lo, hi, i);
        if i == c || i == nx {
          v := v[i := true];
          z := Raise(z, i);
        } else if target == Some(i) {
          v := v[i := true];
        } else {
          v := v[i := false];
        }
      }
    }

    /** Stops the group and puts the pages recorded for the transition back at the corner. */
    method CleanupAnimation()
      modifies this
      ensures Snap() == Transitions.CleanupAnimation(old(Snap()))
    {
      if anim.group.Some? {
        anim := anim.(group := None);
      }
      var p := MoveToCorner(host.pos, anim.transitionPages);
      host := host.(pos := p);
    }

    /** `ps` with each page of `pages` moved to the frame's corner. The pages
        are visited in index order; the moves are independent, so the order
        in which a set yields them is immaterial. */
    method MoveToCorner(ps: seq<Point>, pages: set<int>) returns (r: seq<Point>)
      ensures r == AtCorner(ps, pages, TopLeft(frame))
    {
      r := ps;
      for i := 0 to |ps|
        invariant |r| == |ps|
        invariant forall k :: 0 <= k < |ps| ==> r[k] == if k < i && k in pages then TopLeft(frame) else ps[k]
      {
        if i in pages {
          r := r[i := TopLeft(frame)];
        }
      }
    }

    /** Starts the group for the recorded pair, after stopping one still running. */
    method StartAnimation()
      requires 0 <= track.current < |host.visible| && 0 <= track.next < |host.visible|
      requires |host.pos| == |host.visible|
      requires track.target.Some? && 0 <= track.target.value < |host.visible|
      modifies this
      ensures Snap() == Transitions.StartAnimation(old(Snap()))
    {
      if anim.group.Some? {
        CleanupAnimation();
      }
      StartGroup();
    }

    /** The group is created: the pair raised over a lowered target, the
        outgoing page placed at the corner and both tweens set up. */
    method StartGroup()
      requires 0 <= track.current < |host.visible| && 0 <= track.next < |host.visible|
      requires |host.pos| == |host.visible|
      requires track.target.Some? && 0 <= track.target.value < |host.visible|
      modifies this
      ensures Snap() == Transitions.StartGroup(old(Snap()))
    {
      var c, nx, t := track.current, track.next, track.target.value;
      var z := StackForAnimation(c, nx, t);
      var active, v := {c, nx}, host.visible;
      if t != c && t != nx {
        // the target stays visible, below the pair
        active := {c, nx, t};
        v := v[t := true];
        z := Lower(z, t);
      }
      var corner := TopLeft(frame);
      var p := host.pos[c := corner];
      var g := Some(Slide(c, nx,
                          p[c], Add(corner, OutgoingEnd(axis, anim.forward, frame)),
                          IncomingOffset(axis, anim.forward, frame), Add(corner, Origin),
                          speed, curve));
      track := track.(animating := true);
      anim := anim.(group := g, activePages := active);
      host := host.(visible := v, order := z, pos := p);
    }

    /** The stacking loop of a starting animation: in index order the pair is
        raised and a target outside the pair is lowered. */
    method StackForAnimation(c: int, nx: int, t: int) returns (z: seq<int>)
      requires 0 <= c < |host.visible| && 0 <= nx < |host.visible| && 0 <= t < |host.visible|
      ensures z == if t != c && t != nx then RaisePair(Lower(host.order, t), c, nx) else RaisePair(host.order, c, nx)
      ensures (if t != c && t != nx then Lower(z, t) else z) == RaisePairOver(host.order, c, nx, t)
    {
      var extra := t != c && t != nx;
      var lo, hi := if c <= nx then c else nx, if c <= nx then nx else c;
      var order := host.order;
      z := order;
      for i := 0 to |host.visible|
        invariant extra ==> z == RaiseIfBelow(RaiseIfBelow(LowerIfBelow(order, t, i), lo, i), hi, i)
        invariant !extra ==> z == RaiseIfBelow(RaiseIfBelow(order, lo, i), hi, i)
      {
        RaisePairStep(if extra then LowerIfBelow(order, t, i) else order, lo, hi, i);
        if i == nx {
          z := Raise(z, i);
        } else if i == c {
          z := Raise(z, i);
        } else if i == t {
          LowerStep(order, lo, hi, t);
          z := Lower(z, i);
        }
      }
      if extra {
        LowerAfterPair(order, c, nx, t);
      }
    }

    /** The group reports completion: the page slid in becomes current and the
        only one shown, every page returns to the corner, and a target other
        than that page is requested again by a zero-delay callback. */
    method OnAnimationFinished()
      requires Valid()
      modifies this
      ensures Valid()
      ensures Snap() == Transitions.OnAnimationFinished(old(Snap()))
    {
      ghost var s0 := Snap();
      if anim.group.Some? {
        var currentTarget, finalTarget := track.next, track.target;
        var moved := MoveToCorner(host.pos, anim.activePages);
        var v, z, p := ShowOnly(currentTarget, moved);
        anim := anim.(group := None, activePages := {});
        host := Host(currentTarget, v, z, p);
        if finalTarget.Some? && finalTarget.value != currentTarget {
          track := track.(current := currentTarget, animating := false);
          deferred := deferred + [finalTarget.value];
        } else {
          track := track.(current := currentTarget, animating := false, target := None);
        }
      }
      FinishLeavesValid(s0, Snap());
    }

    /** The loop that ends a transition: page ct shown and raised, every other
        page hidden, every page moved to the frame's corner. */
    method ShowOnly(ct: int, ps: seq<Point>) returns (v: seq<bool>, z: seq<int>, p: seq<Point>)
      requires 0 <= ct < |host.visible| && |ps| == |host.visible|
      ensures v == Only(|host.visible|, ct)
      ensures z == Raise(host.order, ct)
      ensures p == AllAt(|ps|, TopLeft(frame))
    {
      var order := host.order;
      v, z, p := host.visible, order, ps;
      for i := 0 to |v|
        invariant |v| == |host.visible| && |p| == |ps|
        invariant forall k :: 0 <= k < i ==> v[k] == (k == ct) && p[k] == TopLeft(frame)
        invariant z == RaiseIfBelow(order, ct, i)
      {
        if i == ct {
          v := v[i := true];
          z := Raise(z, i);
        } else {
          v := v[i := false];
        }
        p := p[i := TopLeft(frame)];
      }
    }

    /** The watchdog's action: jump straight to the target page. */
    method ForceFinishAnimation()
      requires Valid()
      modifies this
      ensures Valid()
      ensures Snap() == Transitions.ForceFinishAnimation(old(Snap()))
    {
      ghost var s0 := Snap();
      if track.animating && anim.group.Some? {
        var t := track.target.value;
        var visible := host.visible;
        var p := host.pos[t := TopLeft(frame)];
        var v := visible[t := true];
        var z := Raise(host.order, t);
        for i := 0 to |visible|
          invariant |v| == |visible|
          invariant forall k :: 0 <= k < i ==> v[k] == (k == t)
          invariant forall k :: i <= k < |v| ==> v[k] == (k == t || visible[k])
        {
          if i != t {
            v := v[i := false];
          }
        }
        assert v == Only(|visible|, t);
        host := Host(t, v, z, p);
        track := track.(animating := false);
        anim := anim.(group := None);
      }
      ForceFinishLeavesValid(s0, Snap());
    }

    /** The event loop runs the oldest queued callback: a request for its page. */
    method RunDeferred()
      requires Valid()
      modifies this
      ensures Valid()
      ensures Snap() == Transitions.RunDeferred(old(Snap()))
    {
      if deferred == [] {
        return;
      }
      var page := deferred[0];
      deferred := deferred[1..];
      SlideInWgt(page);
    }

    method SetDirection(direction: Axis)
      requires Valid()
      modifies this
      ensures Valid()
      ensures Snap() == old(Snap()).(axis := direction)
    {
      axis := direction;
    }

    method SetSpeed(speed: int)
      requires Valid()
      modifies this
      ensures Valid()
      ensures Snap() == old(Snap()).(speed := speed)
    {
      this.speed := speed;
    }

    method SetAnimation(curve: Curve)
      requires Valid()
      modifies this
      ensures Valid()
      ensures Snap() == old(Snap()).(curve := curve)
    {
      this.curve := curve;
    }

    method SetWrap(wrap: bool)
      requires Valid()
      modifies this
      ensures Valid()
      ensures Snap() == old(Snap()).(wrap := wrap)
    {
      this.wrap := wrap;
    }
  }

  // Forwarding lemmas. Each only restates a lemma of Transitions (the
  // invariant-keeping ones, and the unfolding of SlideInNext and SlideInPrev)
  // for a given result state. The methods above pass their own new state, so
  // the fact is carried over by an equality; proving it directly against the
  // fields inside the methods makes the solver unfold the whole transition
  // over the heap, which costs far more. They add no property of their own.

  lemma RequestLeavesValid(s: State, page: int, r: State)
    requires Transitions.Valid(s) && r == Transitions.SlideInWgt(s, page)
    ensures Transitions.Valid(r)
  {
    SlideInWgtKeepsValid(s, page);
  }

  lemma FinishLeavesValid(s: State, r: State)
    requires Transitions.Valid(s) && r == Transitions.OnAnimationFinished(s)
    ensures Transitions.Valid(r)
  {
    OnAnimationFinishedKeepsValid(s);
  }

  lemma ForceFinishLeavesValid(s: State, r: State)
    requires Transitions.Valid(s) && r == Transitions.ForceFinishAnimation(s)
    ensures Transitions.Valid(r)
  {
    ForceFinishAnimationKeepsValid(s);
  }

  lemma NextRequestsFollowing(s: State, r: State)
    requires Count(s) > 0 && (s.wrap || s.shown < Count(s) - 1)
    requires r == Transitions.SlideInIdx(s, s.shown + 1)
    ensures r == Transitions.SlideInNext(s)
  {
  }

  lemma PrevRequestsPreceding(s: State, r: State)
    requires Count(s) > 0 && (s.wrap || s.shown > 0)
    requires r == Transitions.SlideInIdx(s, s.shown - 1)
    ensures r == Transitions.SlideInPrev(s)
  {
  }
}
