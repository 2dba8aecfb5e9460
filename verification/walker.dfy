/** The route-walking engine of walking_timer_callback.cs: a cursor (current
    location and segment index) over the polyline being walked, advanced by a
    fixed step every timer tick, and reversing the route in place when it
    reaches the end. */
module Walker {
  import opened Base
  import opened Geodesy

  /** The engine state.  `route` is the polyline's location list (None when
      no polyline is set); `cur` is m_cur_location (None before any route
      was set); `seg` is m_cur_seg_index; `speed` is walking_speed in m/s. */
  datatype Walker = Walker(route: Option<seq<Location>>, cur: Option<Location>, seg: int, speed: real)

  /** The state of a freshly constructed engine before set_route runs:
      every field has its .NET default. */
  const Blank: Walker := Walker(None, None, 0, 0.0)

  /** set_route: the route is always replaced; when it is non-null the cursor
      goes to its first point and segment 0.  An empty location list makes
      the indexer throw. */
  function SetRoute(w: Walker, route: Option<seq<Location>>): (r: Result<Walker>)
    ensures r.Err? <==> route.Some? && |route.value| == 0
    ensures r.Ok? ==> r.value.route == route && r.value.speed == w.speed
    ensures r.Ok? && route.None? ==> r.value.cur == w.cur && r.value.seg == w.seg
    ensures r.Ok? && route.Some? ==> r.value.cur == Some(route.value[0]) && r.value.seg == 0
  {
    match route
    case None => Ok(w.(route := None))
    case Some(p) =>
      if |p| == 0 then Err(ArgumentOutOfRange)
      else Ok(w.(route := route, cur := Some(p[0]), seg := 0))
  }

  /** The constructor: set_route on the given polyline. */
  function Create(route: Option<seq<Location>>): (r: Result<Walker>)
    ensures r.Ok? ==> r.value.speed == 0.0
    ensures route.None? ==> r == Ok(Blank)
  {
    SetRoute(Blank, route)
  }

  /** reset: set_route on the route already held, which puts the cursor back
      at its start. */
  function Reset(w: Walker): (r: Result<Walker>)
    ensures w.route.Some? && |w.route.value| > 0 ==>
      r == Ok(w.(cur := Some(w.route.value[0]), seg := 0))
    ensures w.route.None? ==> r == Ok(w)
  {
    SetRoute(w, w.route)
  }

  /** The distance covered in one 500 ms tick. */
  function StepLength(w: Walker): real
  {
    w.speed / 2.0
  }

  /** Move(s, |s| - 1, i) when the prefix up to `i` is already in place:
      the last item is cut off and inserted at `i`. */
  lemma MoveLastTo<T>(s: seq<T>, i: int)
    requires 0 <= i < |s|
    ensures Move(s, |s| - 1, i) == s[..i] + [s[|s| - 1]] + s[i..|s| - 1]
  {
    var rest := s[..|s| - 1] + s[|s|..];
    assert rest == s[..|s| - 1];
  }

  /** The reversal loop `for i in [0, Count): Move(Count - 1, i)` of
      get_next_step_location.  After round `i` the first `i` items are the
      last `i` of the original in reverse order, and the rest is the
      untouched front of the original; so at the end the route is reversed. */
  method ReverseRoute<T>(s: seq<T>) returns (r: seq<T>)
    ensures r == Reverse(s)
    ensures multiset(r) == multiset(s)
  {
    r := s;
    var i := 0;
    ReverseRoundsBoundary(s);
    while i < |r|
      invariant 0 <= i <= |s| && |r| == |s|
      invariant r == Partial(s, i)
    {
      ReverseRound(s, r, i);
      r := Move(r, |r| - 1, i);
      i := i + 1;
    }
    ReversePermutes(s);
  }

  /** The route after `i` rounds of the reversal loop: the last `i` items of
      the original in reverse order, followed by its untouched front. */
  ghost function Partial<T>(s: seq<T>, i: int): seq<T>
    requires 0 <= i <= |s|
  {
    Reverse(s[|s| - i..]) + s[..|s| - i]
  }

  /** One round of the reversal loop: moving the last item to `i` extends the
      reversed part by the next item from the back of the original. */
  lemma {:induction false} ReverseRound<T>(s: seq<T>, r: seq<T>, i: int)
    requires 0 <= i < |s| && |r| == |s|
    requires r == Partial(s, i)
    ensures Move(r, |r| - 1, i) == Partial(s, i + 1)
  {
    MoveLastTo(r, i);
    PartialParts(s, r, i);
    PartialNext(s, i);
  }

  /** The route after `i` rounds, cut where the next round cuts it. */
  lemma {:induction false} PartialParts<T>(s: seq<T>, r: seq<T>, i: int)
    requires 0 <= i < |s| && r == Partial(s, i)
    ensures r[..i] == Reverse(s[|s| - i..])
    ensures r[|r| - 1] == s[|s| - i - 1]
    ensures r[i..|r| - 1] == s[..|s| - i - 1]
  {
    var n := |s|;
    var a, b := s[n - i..], s[..n - i];
    SplitLast(Reverse(a), b);
    assert b[|b| - 1] == s[n - i - 1];
    assert b[..|b| - 1] == s[..n - i - 1];
  }

  /** One more round puts the next item from the back of the original after
      the reversed part. */
  lemma {:induction false} PartialNext<T>(s: seq<T>, i: int)
    requires 0 <= i < |s|
    ensures Partial(s, i + 1) == Reverse(s[|s| - i..]) + [s[|s| - i - 1]] + s[..|s| - i - 1]
  {
    var x := s[|s| - i - 1..];
    assert x[1..] == s[|s| - i..] && x[0] == s[|s| - i - 1];
    ReverseSnoc(x);
  }

  /** The parts of `x + y` the reversal round moves: the prefix `x`, the
      last item of `y`, and the rest of `y`. */
  lemma {:induction false} SplitLast<T>(x: seq<T>, y: seq<T>)
    requires |y| > 0
    ensures (x + y)[..|x|] == x
    ensures (x + y)[|x| + |y| - 1] == y[|y| - 1]
    ensures (x + y)[|x|..|x| + |y| - 1] == y[..|y| - 1]
  {
  }

  /** Before the first round nothing is reversed yet; after the last round
      everything is. */
  lemma {:induction false} ReverseRoundsBoundary<T>(s: seq<T>)
    ensures s == Partial(s, 0)
    ensures Partial(s, |s|) == Reverse(s)
  {
    assert s[|s|..] == [] && s[..|s|] == s;
    assert s[0..] == s && s[..0] == [];
  }

  /** Reversing a non-empty sequence puts its head last. */
  lemma ReverseSnoc<T>(x: seq<T>)
    requires |x| > 0
    ensures Reverse(x) == Reverse(x[1..]) + [x[0]]
  {
  }

  /** One step of the engine: get_next_step_location together with the
      assignment of its result to m_cur_location in one_step.  The checks
      happen in the order the code performs them: the polyline is
      dereferenced, then indexed at `seg + 1`, then the current location is
      read by the distance computation, and only in the within-segment case
      is the polyline indexed at `seg` itself.  At the end of the route the
      polyline is reversed (the loop modelled by ReverseRoute) and the
      cursor restarts at its first point. */
  function Step(t: Trig, w: Walker): (r: Result<Walker>)
    ensures r.Ok? <==>
      && w.route.Some? && 0 <= w.seg + 1 < |w.route.value| && w.cur.Some?
      && (0 <= w.seg || StepLength(w) >= Distance(t, w.cur.value, w.route.value[w.seg + 1]))
    ensures r.Ok? ==> r.value.speed == w.speed && r.value.cur.Some?
    ensures r.Err? ==> r.fault == NullReference || r.fault == ArgumentOutOfRange
  {
    if w.route.None? then Err(NullReference)
    else
      var p := w.route.value;
      if !(0 <= w.seg + 1 < |p|) then Err(ArgumentOutOfRange)
      else if w.cur.None? then Err(NullReference)
      else
        var here := w.cur.value;
        var remaining := Distance(t, here, p[w.seg + 1]);
        var step := StepLength(w);
        if step < remaining then
          if w.seg < 0 then Err(ArgumentOutOfRange)
          else Ok(w.(cur := Some(Destination(t, here, Bearing(t, p[w.seg], p[w.seg + 1]), step))))
        else
          var next := w.seg + 1;
          if next >= |p| - 1 then
            var q := Reverse(p);
            Ok(w.(route := Some(q), cur := Some(q[0]), seg := 0))
          else
            Ok(w.(seg := next,
                  cur := Some(Destination(t, p[next], Bearing(t, p[next], p[next + 1]), step - remaining))))
  }

  /** The engine invariant on a walkable route: at least two points, a
      segment index naming an existing segment, and a current location. */
  predicate Valid(w: Walker)
  {
    && w.route.Some? && |w.route.value| >= 2
    && 0 <= w.seg <= |w.route.value| - 2
    && w.cur.Some?
  }

  /** set_route (and so reset) on a route of two or more points yields a
      valid engine positioned at the route's first point. */
  lemma SetRouteValid(w: Walker, p: seq<Location>)
    requires |p| >= 2
    ensures SetRoute(w, Some(p)).Ok?
    ensures Valid(SetRoute(w, Some(p)).value)
    ensures SetRoute(w, Some(p)).value.cur == Some(p[0])
  {
  }

  /** From a valid state a step never throws, keeps the engine valid, and
      either keeps the route or reverses it (so the points walked never change
      as a multiset); the segment index stays, advances by exactly one, or
      wraps to 0 together with a reversal: at most one boundary per tick. */
  lemma StepPreservesValid(t: Trig, w: Walker)
    requires Valid(w)
    ensures Step(t, w).Ok?
    ensures Valid(Step(t, w).value)
    ensures var w' := Step(t, w).value;
            || (w'.route == w.route && (w'.seg == w.seg || w'.seg == w.seg + 1))
            || (w'.route == Some(Reverse(w.route.value)) && w'.seg == 0)
    ensures multiset(Step(t, w).value.route.value) == multiset(w.route.value)
  {
    ReversePermutes(w.route.value);
  }

  /** While the step is shorter than the distance left to the end of the
      segment, the cursor moves `speed / 2` along the segment's bearing and
      stays on the same segment. */
  lemma StepWithinSegment(t: Trig, w: Walker)
    requires Valid(w)
    requires StepLength(w) < Distance(t, w.cur.value, w.route.value[w.seg + 1])
    ensures var p := w.route.value;
            Step(t, w) == Ok(w.(cur := Some(Destination(t, w.cur.value,
                                   Bearing(t, p[w.seg], p[w.seg + 1]), StepLength(w)))))
  {
  }

  /** When the step reaches the end of a segment that is not the last, the
      cursor moves to the next segment and is placed the left-over distance
      along it from its start point. */
  lemma StepNextSegment(t: Trig, w: Walker)
    requires Valid(w)
    requires StepLength(w) >= Distance(t, w.cur.value, w.route.value[w.seg + 1])
    requires w.seg + 2 < |w.route.value|
    ensures var p, k := w.route.value, w.seg + 1;
            var left := StepLength(w) - Distance(t, w.cur.value, p[k]);
            Step(t, w) == Ok(w.(seg := k,
                                cur := Some(Destination(t, p[k], Bearing(t, p[k], p[k + 1]), left))))
  {
  }

  /** When the step reaches the end of the last segment, the route is
      reversed in place, the index restarts at 0 and the cursor is the first
      point of the reversed route, which is the last point of the old one. */
  lemma StepAtEnd(t: Trig, w: Walker)
    requires Valid(w)
    requires StepLength(w) >= Distance(t, w.cur.value, w.route.value[w.seg + 1])
    requires w.seg + 2 == |w.route.value|
    ensures var p := w.route.value;
            Step(t, w) == Ok(w.(route := Some(Reverse(p)), cur := Some(p[|p| - 1]), seg := 0))
  {
  }
}
