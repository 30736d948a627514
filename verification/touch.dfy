/**
 * Touch handling (`touchesBegan`, `touchesMoved`, `touchesEnded`,
 * `touchesCancelled`, `handleTouch`): mapping a touch's height in the text
 * area to a section index, and the small state machine that tracks one
 * touch and tells the delegate about a section only when it changes.
 */
module Touch {
  import opened Optional
  import opened Geometry
  import opened Layout

  /** The largest progress a touch can have; keeps the index below the count. */
  const ProgressCap: real := 0.999

  /**
   * How far down the text area a touch is, as a fraction of its height,
   * kept within `[0, 0.999]`.
   */
  function Progress(relY: real, height: real): (p: real)
    requires height > 0.0
    ensures 0.0 <= p <= ProgressCap
    ensures 0.0 <= relY <= ProgressCap * height ==> p * height == relY
    ensures relY <= 0.0 ==> p == 0.0
    ensures relY >= ProgressCap * height ==> p == ProgressCap
  {
    FractionFacts(relY, height);
    Clamp(relY / height, 0.0, ProgressCap)
  }

  /** How the fraction `relY / height` compares with 0 and the cap. */
  lemma FractionFacts(relY: real, height: real)
    requires height > 0.0
    ensures (relY / height) * height == relY
    ensures relY <= 0.0 ==> relY / height <= 0.0
    ensures 0.0 <= relY ==> 0.0 <= relY / height
    ensures relY <= ProgressCap * height ==> relY / height <= ProgressCap
    ensures relY >= ProgressCap * height ==> relY / height >= ProgressCap
  {
    var f := relY / height;
    assert f * height == relY;
    if f > ProgressCap {
      MulMonotone(ProgressCap, f, height);
    } else if f < ProgressCap {
      MulMonotone(f, ProgressCap, height);
    }
    if f > 0.0 {
      MulMonotone(0.0, f, height);
    } else if f < 0.0 {
      MulMonotone(f, 0.0, height);
    }
  }

  /**
   * The section a touch `relY` below the text area's top selects in a
   * text area `height` tall holding `n` sections: always a valid index
   * when there are sections, and 0 when there are none.
   */
  function SectionIndex(relY: real, height: real, n: nat): (k: int)
    requires height > 0.0
    ensures n > 0 ==> 0 <= k < n
    ensures n == 0 ==> k == 0
  {
    IndexBounds(Progress(relY, height), n);
    (Progress(relY, height) * n as real).Floor
  }

  lemma IndexBounds(p: real, n: nat)
    requires 0.0 <= p <= ProgressCap
    ensures n > 0 ==> 0 <= (p * n as real).Floor < n
    ensures n == 0 ==> (p * n as real).Floor == 0
  {
    if n > 0 {
      MulMonotone(0.0, p, n as real);
      MulMonotone(p, 1.0, n as real);
    }
  }

  /** A touch further down the bar never selects an earlier section. */
  lemma SectionIndexMonotone(y1: real, y2: real, height: real, n: nat)
    requires height > 0.0 && y1 <= y2
    ensures SectionIndex(y1, height, n) <= SectionIndex(y2, height, n)
  {
    DivMonotone(y1, y2, height);
    var p1 := Progress(y1, height);
    var p2 := Progress(y2, height);
    assert p1 <= p2;
    if n > 0 {
      MulMonotone(p1, p2, n as real);
      FloorMonotone(p1 * n as real, p2 * n as real);
    }
  }

  /**
   * Three sections in a text area 100 high: a touch at 99 selects the last
   * section, and so does a touch at 100, which the cap keeps off index 3.
   */
  lemma ThreeSectionsNearTheBottom()
    ensures SectionIndex(99.0, 100.0, 3) == 2
    ensures SectionIndex(100.0, 100.0, 3) == 2
  {
    assert Progress(99.0, 100.0) == 0.99;
    assert (0.99 * 3.0).Floor == 2;
    assert Progress(100.0, 100.0) == ProgressCap;
    assert (ProgressCap * 3.0).Floor == 2;
  }

  /**
   * A touch at or below the bottom of the text area selects the last
   * section exactly when there are at most a thousand sections; with more,
   * the cap of 0.999 lands it on an earlier one.
   */
  lemma BottomEdgeSelectsLastIff(relY: real, height: real, n: nat)
    requires height > 0.0 && relY >= height && n >= 1
    ensures SectionIndex(relY, height, n) == n - 1 <==> n <= 1000
  {
    MulMonotone(ProgressCap * height, height, 1.0);
    assert Progress(relY, height) == ProgressCap;
    var x := ProgressCap * n as real;
    if n <= 1000 {
      assert x >= (n - 1) as real;
    } else {
      assert x < (n - 1) as real;
    }
  }

  /**
   * With at most a thousand sections, every section is selected by some
   * touch: section `k` by a touch `k / n` of the way down.
   */
  lemma EverySectionReachable(height: real, n: nat, k: nat)
    requires height > 0.0 && 1 <= n <= 1000 && k < n
    ensures SectionIndex(height * (k as real / n as real), height, n) == k
  {
    var f := k as real / n as real;
    var relY := height * f;
    assert f * n as real == k as real;
    var nr := n as real;
    assert f * nr == k as real;
    assert k as real <= nr - 1.0;
    assert nr - 1.0 <= ProgressCap * nr;
    MulCancelLe(f, ProgressCap, n as real);
    MulMonotone(0.0, f, height);
    MulMonotone(f, ProgressCap, height);
    assert Progress(relY, height) * height == relY;
    assert Progress(relY, height) == f;
  }

  /** A touch as the bar sees it: its identity and its location in the bar. */
  datatype TouchPoint = TouchPoint(id: nat, location: Point)

  /**
   * The bar's touch memory: the touch being tracked (`currentTouch`), the
   * section last reported to the delegate (`lastSelectedStringIndex`), and
   * whether the bar is highlighted.
   */
  datatype TouchState = TouchState(current: Option<nat>, lastSelected: Option<int>, highlighted: bool)

  /** The memory of a freshly initialized bar. */
  const Idle: TouchState := TouchState(None, None, false)

  /** A freshly initialized bar's memory is consistent, so every run from it stays so. */
  lemma IdleIsConsistent(n: nat)
    ensures Consistent(Idle, n)
  {
  }

  /** Which `touches…` override UIKit calls. */
  datatype Phase = Began | Moved | Ended | Cancelled

  /** One call of a `touches…` override with the touches it is handed. */
  datatype Event = Event(phase: Phase, touches: seq<TouchPoint>)

  /** The memory after an event, and the section reported to the delegate, if any. */
  datatype Response = Response(state: TouchState, selected: Option<int>)

  /** The bar can map touches: its text area has a positive height. */
  predicate Trackable(bar: Bar)
  {
    bar.Valid() && TextArea(bar).height > 0.0
  }

  /** The section a touch at `p` selects in text area `area` over `n` labels. */
  function SectionIn(area: Rect, n: nat, p: Point): int
    requires area.height > 0.0
  {
    SectionIndex(p.y - area.y, area.height, n)
  }

  /** The section a touch at `p` selects on `bar`. */
  function SectionAt(bar: Bar, p: Point): int
    requires Trackable(bar)
  {
    SectionIn(TextArea(bar), |bar.labels|, p)
  }

  /** The first of `touches` with identity `id`, if one is. */
  function Find(touches: seq<TouchPoint>, id: nat): (r: Option<TouchPoint>)
    ensures r.Some? ==> r.value in touches && r.value.id == id
    ensures r.None? ==> forall t | t in touches :: t.id != id
  {
    if |touches| == 0 then None
    else if touches[0].id == id then Some(touches[0])
    else Find(touches[1..], id)
  }

  /**
   * `handleTouch` on the bar's text area `area` (`rectForTextArea()`) and
   * its `n` labels: the delegate hears of the section under the touch only
   * when it differs from the last one it heard of, which is then
   * remembered. Nothing but that memory changes.
   */
  function HandleTouch(area: Rect, n: nat, s: TouchState, p: Point): (r: Response)
    requires area.height > 0.0
    ensures r.state.lastSelected == Some(SectionIn(area, n, p))
    ensures r.selected.Some? <==> s.lastSelected != Some(SectionIn(area, n, p))
    ensures r.selected.Some? ==> r.selected.value == SectionIn(area, n, p)
    ensures r.state.(lastSelected := s.lastSelected) == s
  {
    var k := SectionIn(area, n, p);
    if Some(k) != s.lastSelected then Response(s.(lastSelected := Some(k)), Some(k))
    else Response(s, None)
  }

  /**
   * `r` is what `handleTouch` makes of a touch at `p` from memory `s`: the
   * section under `p` is remembered, and reported exactly when it differs
   * from the one remembered before.
   */
  predicate Handled(bar: Bar, s: TouchState, p: Point, r: Response)
    requires Trackable(bar)
  {
    var k := SectionAt(bar, p);
    && r.state.lastSelected == Some(k)
    && (r.selected.Some? <==> s.lastSelected != Some(k))
    && (r.selected.Some? ==> r.selected == Some(k))
  }

  /** The index is one the delegate can use: a section, or 0 with no sections. */
  predicate InRange(k: int, n: nat)
  {
    0 <= k && (k < n || k == 0)
  }

  /** The last of `touches` lies inside the text area. */
  predicate LandsInside(bar: Bar, touches: seq<TouchPoint>)
    requires bar.Valid()
  {
    |touches| > 0 && Contains(TextArea(bar), touches[|touches| - 1].location)
  }

  /**
   * One touch event.
   * - Began: only the last touch handed over counts; it is tracked, and
   *   its section handled, only when it lands inside the text area.
   * - Moved: only the tracked touch counts; the highlight follows whether
   *   it is still inside the text area, and its section is handled.
   * - Ended, Cancelled: the tracked touch is released if it is among the
   *   touches, and the memory of the last section is cleared either way.
   *   `touchesCancelled` force-unwraps the tracked touch, so it needs one.
   */
  function Step(bar: Bar, s: TouchState, e: Event): (r: Response)
    requires Trackable(bar)
    requires e.phase == Cancelled ==> s.current.Some?
    ensures r.selected.Some? ==> r.state.lastSelected == r.selected && r.selected != s.lastSelected
    ensures r.selected.Some? ==> InRange(r.selected.value, |bar.labels|)
    ensures e.phase == Ended || e.phase == Cancelled ==> r.state.lastSelected.None? && r.selected.None?
    ensures e.phase == Began && !LandsInside(bar, e.touches) ==> r == Response(s, None)
    ensures e.phase == Began && LandsInside(bar, e.touches) ==>
      r.state.current == Some(e.touches[|e.touches| - 1].id) && r.state.highlighted
    ensures e.phase == Began && LandsInside(bar, e.touches) ==>
      Handled(bar, s, e.touches[|e.touches| - 1].location, r)
    ensures e.phase == Moved ==> r.state.current == s.current
    ensures e.phase == Moved && s.current.Some? && Find(e.touches, s.current.value).Some? ==>
      r.state.highlighted == Contains(TextArea(bar), Find(e.touches, s.current.value).value.location)
    ensures e.phase == Moved && s.current.Some? && Find(e.touches, s.current.value).Some? ==>
      Handled(bar, s, Find(e.touches, s.current.value).value.location, r)
    ensures e.phase == Moved && (s.current.None? || Find(e.touches, s.current.value).None?) ==> r == Response(s, None)
    ensures (e.phase == Ended || e.phase == Cancelled) && s.current.Some? && Find(e.touches, s.current.value).Some? ==>
      r.state.current.None? && !r.state.highlighted
    ensures (e.phase == Ended || e.phase == Cancelled) && (s.current.None? || Find(e.touches, s.current.value).None?) ==>
      r.state.current == s.current && r.state.highlighted == s.highlighted
  {
    var area := TextArea(bar);
    match e.phase
    case Began =>
      if |e.touches| == 0 then Response(s, None)
      else
        var t := e.touches[|e.touches| - 1];
        if Contains(area, t.location) then
          HandleTouch(area, |bar.labels|, s.(current := Some(t.id), highlighted := Contains(area, t.location)), t.location)
        else Response(s, None)
    case Moved =>
      if s.current.None? then Response(s, None)
      else (
        match Find(e.touches, s.current.value)
        case None => Response(s, None)
        case Some(t) => HandleTouch(area, |bar.labels|, s.(highlighted := Contains(area, t.location)), t.location))
    case Ended =>
      var released :=
        if s.current.Some? && Find(e.touches, s.current.value).Some? then s.(current := None, highlighted := false)
        else s;
      Response(released.(lastSelected := None), None)
    case Cancelled =>
      var released :=
        if Find(e.touches, s.current.value).Some? then s.(current := None, highlighted := false)
        else s;
      Response(released.(lastSelected := None), None)
  }

  /**
   * What the touch memory keeps true between events: with no tracked touch
   * the bar is neither highlighted nor remembering a section, and a
   * remembered section is in range.
   */
  predicate Consistent(s: TouchState, n: nat)
  {
    && (s.current.None? ==> s.lastSelected.None? && !s.highlighted)
    && (s.lastSelected.Some? ==> InRange(s.lastSelected.value, n))
  }

  /** Every event keeps the touch memory consistent. */
  lemma StepKeepsConsistent(bar: Bar, s: TouchState, e: Event)
    requires Trackable(bar) && Consistent(s, |bar.labels|)
    requires e.phase == Cancelled ==> s.current.Some?
    ensures Consistent(Step(bar, s, e).state, |bar.labels|)
  {
  }

  /**
   * Moving the tracked touch reports its section exactly when that section
   * differs from the one last reported.
   */
  lemma MoveReportsIffSectionChanges(bar: Bar, s: TouchState, e: Event)
    requires Trackable(bar) && e.phase == Moved && s.current.Some?
    requires Find(e.touches, s.current.value).Some?
    ensures var t := Find(e.touches, s.current.value).value;
      Step(bar, s, e).selected.Some? <==> s.lastSelected != Some(SectionAt(bar, t.location))
  {
  }

  /** The same move delivered twice reports nothing the second time. */
  lemma RepeatedMoveIsSilent(bar: Bar, s: TouchState, e: Event)
    requires Trackable(bar) && e.phase == Moved
    ensures Step(bar, Step(bar, s, e).state, e).selected.None?
  {
  }

  /**
   * After a release or a cancel, a touch landing inside the text area
   * reports its section even if it is the section reported last.
   */
  lemma ReleaseThenTouchReports(bar: Bar, s: TouchState, release: Event, press: Event)
    requires Trackable(bar)
    requires release.phase == Ended || (release.phase == Cancelled && s.current.Some?)
    requires press.phase == Began && LandsInside(bar, press.touches)
    ensures Step(bar, Step(bar, s, release).state, press).selected
         == Some(SectionAt(bar, press.touches[|press.touches| - 1].location))
  {
  }

  /**
   * An end event that does not carry the tracked touch leaves it tracked
   * but still forgets the last section, so the touch's next move reports
   * its section again.
   */
  lemma ForeignEndForgetsSection(bar: Bar, s: TouchState, end: Event, move: Event)
    requires Trackable(bar) && s.current.Some?
    requires end.phase == Ended && Find(end.touches, s.current.value).None?
    requires move.phase == Moved && Find(move.touches, s.current.value).Some?
    ensures Step(bar, s, end).state.current == s.current
    ensures Step(bar, Step(bar, s, end).state, move).selected.Some?
  {
  }

  /** A sequence of events none of which makes `touchesCancelled` trap. */
  predicate Runnable(bar: Bar, s: TouchState, events: seq<Event>)
    requires Trackable(bar)
    decreases |events|
  {
    |events| == 0 ||
      ((events[0].phase == Cancelled ==> s.current.Some?)
       && Runnable(bar, Step(bar, s, events[0]).state, events[1..]))
  }

  /** The memory after `events`, and the sections reported along the way. */
  function Run(bar: Bar, s: TouchState, events: seq<Event>): (TouchState, seq<int>)
    requires Trackable(bar) && Runnable(bar, s, events)
    decreases |events|
  {
    if |events| == 0 then (s, [])
    else
      var r := Step(bar, s, events[0]);
      var (last, reported) := Run(bar, r.state, events[1..]);
      (last, (if r.selected.Some? then [r.selected.value] else []) + reported)
  }

  /**
   * Over any run of events from a consistent memory, the memory stays
   * consistent and every section reported is in range.
   */
  lemma {:induction false} RunKeepsConsistent(bar: Bar, s: TouchState, events: seq<Event>)
    requires Trackable(bar) && Runnable(bar, s, events) && Consistent(s, |bar.labels|)
    ensures Consistent(Run(bar, s, events).0, |bar.labels|)
    ensures forall i | 0 <= i < |Run(bar, s, events).1| :: InRange(Run(bar, s, events).1[i], |bar.labels|)
    decreases |events|
  {
    if |events| > 0 {
      StepKeepsConsistent(bar, s, events[0]);
      RunKeepsConsistent(bar, Step(bar, s, events[0]).state, events[1..]);
    }
  }
}
