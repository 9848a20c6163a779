/** The selector dial of src/CircleComponent.tsx: six points on a circle, an
    active index, an accumulated rotation that always turns the short way
    round, and the companion Tooltip that fades its label out and back in
    after a timer whenever the active index changes. */
module Circle {
  import opened Wrappers
  import opened Scheduler

  /** Number of points on the dial (`totalPoints`). */
  const TotalPoints: int := 6
  /** Angle between two neighbouring points, in degrees (`360 / totalPoints`). */
  const AnglePerStep: int := 360 / TotalPoints

  /** The division is exact, so the integer angle loses nothing against the
      floating-point one. */
  lemma AnglePerStepDividesTurn()
    ensures AnglePerStep == 60 && AnglePerStep * TotalPoints == 360
  {
  }

  predicate ValidIndex(i: int) {
    0 <= i < TotalPoints
  }

  function Abs(x: int): int {
    if x < 0 then -x else x
  }

  // ---------------------------------------------------------------------
  // Index stepping (goToNext / goToPrev)
  // ---------------------------------------------------------------------

  /** `(activeIndex + 1) % totalPoints`; the operand is non-negative, so
      JavaScript's truncating `%` agrees with Dafny's. */
  function NextIndex(active: int): (r: int)
    requires ValidIndex(active)
    ensures ValidIndex(r)
    ensures r == active + 1 || (active == TotalPoints - 1 && r == 0)
  {
    (active + 1) % TotalPoints
  }

  /** `(activeIndex - 1 + totalPoints) % totalPoints`. */
  function PrevIndex(active: int): (r: int)
    requires ValidIndex(active)
    ensures ValidIndex(r)
    ensures r == active - 1 || (active == 0 && r == TotalPoints - 1)
  {
    (active - 1 + TotalPoints) % TotalPoints
  }

  lemma NextPrevInverse(active: int)
    requires ValidIndex(active)
    ensures PrevIndex(NextIndex(active)) == active
    ensures NextIndex(PrevIndex(active)) == active
  {
  }

  // ---------------------------------------------------------------------
  // Delta normalisation (handleClick, lines 28-34)
  // ---------------------------------------------------------------------

  /** Signed angle from the current point to the requested one, folded into
      [-180, 180] by the two strict tests of the source: the first subtracts
      360 above 180, the second adds 360 below -180. */
  function NormalizedDelta(active: int, newIndex: int): (d: int)
    requires ValidIndex(active) && ValidIndex(newIndex)
    ensures -180 <= d <= 180
    ensures (d - AnglePerStep * (newIndex - active)) % 360 == 0
    ensures d == 0 <==> newIndex == active
    ensures d == 180 <==> newIndex - active == 3
    ensures d == -180 <==> newIndex - active == -3
  {
    var targetAngle := AnglePerStep * newIndex;
    var currentAngle := AnglePerStep * active;
    var raw := targetAngle - currentAngle;
    var d1 := if raw > 180 then raw - 360 else raw;
    if d1 < -180 then d1 + 360 else d1
  }

  /** No other representative of the same angle is shorter: the dial always
      turns the short way round. */
  lemma NormalizedDeltaIsShortest(active: int, newIndex: int, k: int)
    requires ValidIndex(active) && ValidIndex(newIndex)
    ensures Abs(NormalizedDelta(active, newIndex)) <= Abs(AnglePerStep * (newIndex - active) + 360 * k)
  {
  }

  /** Both ends of the range are reached: +3 points is +180, -3 is -180. */
  lemma NormalizedDeltaEnds()
    ensures NormalizedDelta(0, 3) == 180 && NormalizedDelta(5, 2) == -180
    ensures NormalizedDelta(0, 5) == -60
  {
  }

  // ---------------------------------------------------------------------
  // Dial state (activeIndex, rotation) and handleClick
  // ---------------------------------------------------------------------

  datatype DialState = DialState(activeIndex: int, rotation: int)

  /** The dial's invariant: the index is a point, and the accumulated
      rotation brings that point back to the anchor of point 0. */
  predicate DialInv(s: DialState) {
    ValidIndex(s.activeIndex) && (s.rotation + AnglePerStep * s.activeIndex) % 360 == 0
  }

  /** `handleClick(newIndex)` on the dial state: the current index is a no-op,
      any other index subtracts the normalised delta from the rotation. */
  function Click(s: DialState, newIndex: int): (r: DialState)
    requires ValidIndex(s.activeIndex) && ValidIndex(newIndex)
    ensures r.activeIndex == newIndex
    ensures newIndex == s.activeIndex ==> r == s
    ensures -180 <= r.rotation - s.rotation <= 180
    ensures DialInv(s) ==> DialInv(r)
  {
    if newIndex == s.activeIndex then s
    else DialState(newIndex, s.rotation - NormalizedDelta(s.activeIndex, newIndex))
  }

  /** `onIndexChange` is called with the new index exactly when it differs. */
  function Notification(s: DialState, newIndex: int): (n: Option<int>)
    ensures n.Some? <==> newIndex != s.activeIndex
    ensures n.Some? ==> n.value == newIndex
  {
    if newIndex == s.activeIndex then None else Some(newIndex)
  }

  /** goToNext always turns the dial back by exactly one step, 5 -> 0 included. */
  lemma GoToNextTurnsOneStep(s: DialState)
    requires ValidIndex(s.activeIndex)
    ensures Click(s, NextIndex(s.activeIndex)) == DialState(NextIndex(s.activeIndex), s.rotation - AnglePerStep)
  {
  }

  /** goToPrev always turns the dial forward by exactly one step, 0 -> 5 included. */
  lemma GoToPrevTurnsOneStep(s: DialState)
    requires ValidIndex(s.activeIndex)
    ensures Click(s, PrevIndex(s.activeIndex)) == DialState(PrevIndex(s.activeIndex), s.rotation + AnglePerStep)
  {
  }

  /** The dial after `n` successive goToNext calls. */
  function NextTimes(s: DialState, n: nat): DialState
    requires ValidIndex(s.activeIndex)
    decreases n
  {
    if n == 0 then s else NextTimes(Click(s, NextIndex(s.activeIndex)), n - 1)
  }

  lemma {:induction false} NextTimesEffect(s: DialState, n: nat)
    requires ValidIndex(s.activeIndex)
    ensures NextTimes(s, n).activeIndex == (s.activeIndex + n) % TotalPoints
    ensures NextTimes(s, n).rotation == s.rotation - AnglePerStep * n
    decreases n
  {
    if n > 0 {
      AnglePerStepDividesTurn();
      var s' := Click(s, NextIndex(s.activeIndex));
      GoToNextTurnsOneStep(s);
      NextTimesEffect(s', n - 1);
      if s.activeIndex == TotalPoints - 1 {
        ModShift(n - 1);
      }
    }
  }

  lemma ModShift(x: nat)
    ensures (x + TotalPoints) % TotalPoints == x % TotalPoints
  {
  }

  /** Six goToNext calls come back to the same point, one full turn lower. */
  lemma SixNextsCloseTheLoop(s: DialState)
    requires DialInv(s)
    ensures NextTimes(s, 6) == DialState(s.activeIndex, s.rotation - 360)
    ensures DialInv(NextTimes(s, 6))
  {
    AnglePerStepDividesTurn();
    NextTimesEffect(s, 6);
    assert (s.activeIndex + 6) % TotalPoints == s.activeIndex;
  }

  // ---------------------------------------------------------------------
  // Tooltip: displayed index, visibility and the armed timeouts
  // ---------------------------------------------------------------------

  /** Label table of the Tooltip (theatre, cinema, literature, music, cinema, science). */
  const TooltipLabels: seq<string> :=
    ["Театр", "Кино",
     "Литература", "Музыка",
     "Кино", "Наука"]

  /** An armed `setTimeout`: its id and the index its callback will display. */
  type Timer = Handle<int>

  /** `activeIndex` is the prop the effect last ran with; `timers` are the
      armed timeouts; `cleanup` is the id the current effect's cleanup
      clears, if that effect armed one; `nextTimerId` is the id the next
      `setTimeout` returns. */
  datatype TooltipState = TooltipState(
    activeIndex: int, displayIndex: int, visible: bool,
    timers: seq<Timer>, cleanup: Option<nat>, nextTimerId: nat)

  /** At most one timeout is armed, exactly while the display lags the
      active index; it is the one the effect's cleanup clears, it will show
      the current active index, and the label is hidden meanwhile. */
  predicate TooltipInv(s: TooltipState) {
    && ValidIndex(s.activeIndex) && ValidIndex(s.displayIndex)
    && |s.timers| <= 1
    && (s.timers == [] <==> s.activeIndex == s.displayIndex)
    && (s.cleanup.None? <==> s.timers == [])
    && (s.timers != [] ==>
          s.timers[0] == Handle(s.cleanup.value, s.activeIndex)
          && s.cleanup.value < s.nextTimerId && !s.visible)
  }

  /** Mounting: the label of the initial index is shown, no timeout armed. */
  function TooltipInit(active: int): (s: TooltipState)
    requires ValidIndex(active)
    ensures TooltipInv(s) && s.visible && s.displayIndex == active
  {
    TooltipState(active, active, true, [], None, 1)
  }

  /** The effect re-run after its dependencies changed: the previous run's
      cleanup clears its timeout; then, unless the active index is the one
      displayed, the label is hidden and a new timeout is armed for it. */
  function RunEffect(s: TooltipState): TooltipState {
    var timers := match s.cleanup
      case None => s.timers
      case Some(id) => Cancel(s.timers, id);
    if s.activeIndex == s.displayIndex then
      s.(timers := timers, cleanup := None)
    else
      s.(visible := false, timers := timers + [Handle(s.nextTimerId, s.activeIndex)],
         cleanup := Some(s.nextTimerId), nextTimerId := s.nextTimerId + 1)
  }

  /** A render with prop `active`. An unchanged prop leaves the effect's
      dependencies unchanged, so nothing happens; otherwise the effect re-runs. */
  function OnActiveIndex(s: TooltipState, active: int): (r: TooltipState)
    requires TooltipInv(s) && ValidIndex(active)
    ensures TooltipInv(r)
    ensures r.activeIndex == active && r.displayIndex == s.displayIndex
    ensures active == s.activeIndex ==> r == s
    ensures active != s.activeIndex ==> forall j :: 0 <= j < |s.timers| ==> s.timers[j] !in r.timers
    ensures active != s.displayIndex ==> !r.visible && |r.timers| == 1 && r.timers[0].payload == active
    ensures active != s.activeIndex && active != s.displayIndex ==> r.timers == [Handle(s.nextTimerId, active)]
    ensures active == s.displayIndex ==> r.timers == [] && r.visible == s.visible
  {
    if active == s.activeIndex then s else RunEffect(s.(activeIndex := active))
  }

  /** The k-th armed timeout fires: the display catches up with the index it
      captured and the label is shown. The display changed, so the effect
      re-runs: its cleanup clears the timeout that already ran, and it finds
      the index displayed and arms nothing. A timeout not armed cannot fire. */
  function OnTimer(s: TooltipState, k: nat): (r: TooltipState)
    requires TooltipInv(s)
    ensures TooltipInv(r)
    ensures k >= |s.timers| ==> r == s
    ensures k < |s.timers| ==>
      && r.activeIndex == s.activeIndex && r.displayIndex == s.activeIndex
      && r.visible && r.timers == []
  {
    if k >= |s.timers| then s
    else
      var t := s.timers[k];
      var s1 := s.(timers := Without(s.timers, k), displayIndex := t.payload, visible := true);
      if t.payload != s.displayIndex then RunEffect(s1) else s1
  }

  /** The label text the Tooltip renders. */
  function TooltipText(s: TooltipState): string
    requires ValidIndex(s.displayIndex)
  {
    TooltipLabels[s.displayIndex]
  }

  datatype TooltipEvent = ActiveIndexChanged(index: int) | TimerFired(k: nat)

  predicate ValidEvents(evs: seq<TooltipEvent>) {
    forall j :: 0 <= j < |evs| && evs[j].ActiveIndexChanged? ==> ValidIndex(evs[j].index)
  }

  /** The Tooltip after a sequence of prop changes and timeout firings. */
  function RunTooltip(s: TooltipState, evs: seq<TooltipEvent>): (r: TooltipState)
    requires TooltipInv(s) && ValidEvents(evs)
    ensures TooltipInv(r)
    decreases |evs|
  {
    if evs == [] then s
    else
      var s' := match evs[0]
        case ActiveIndexChanged(i) => OnActiveIndex(s, i)
        case TimerFired(k) => OnTimer(s, k);
      RunTooltip(s', evs[1..])
  }

  /** Without a timeout firing the displayed index and its label never
      change, however many changes arrive: intermediate indices are never
      shown. */
  lemma {:induction false} DisplayChangesOnlyOnTimer(s: TooltipState, evs: seq<TooltipEvent>)
    requires TooltipInv(s) && ValidEvents(evs)
    requires forall j :: 0 <= j < |evs| ==> evs[j].ActiveIndexChanged?
    ensures RunTooltip(s, evs).displayIndex == s.displayIndex
    ensures TooltipText(RunTooltip(s, evs)) == TooltipText(s)
    ensures evs != [] ==> RunTooltip(s, evs).activeIndex == evs[|evs| - 1].index
    decreases |evs|
  {
    if evs != [] {
      var s' := OnActiveIndex(s, evs[0].index);
      var rest := evs[1..];
      assert RunTooltip(s, evs) == RunTooltip(s', rest);
      assert ValidEvents(rest) by {
        forall j | 0 <= j < |rest| && rest[j].ActiveIndexChanged? ensures ValidIndex(rest[j].index) {
          assert rest[j] == evs[j + 1];
        }
      }
      DisplayChangesOnlyOnTimer(s', rest);
      assert rest != [] ==> rest[|rest| - 1] == evs[|evs| - 1];
    }
  }

  /** Last write wins: after a burst of changes exactly one timeout is armed,
      for the last index of the burst; when it fires, that index and its
      label are shown and nothing stays armed. */
  lemma LastChangeWins(s: TooltipState, evs: seq<TooltipEvent>)
    requires TooltipInv(s) && ValidEvents(evs) && evs != []
    requires forall j :: 0 <= j < |evs| ==> evs[j].ActiveIndexChanged?
    requires evs[|evs| - 1].index != s.displayIndex
    ensures |RunTooltip(s, evs).timers| == 1
    ensures RunTooltip(s, evs).timers[0].payload == evs[|evs| - 1].index
    ensures var r := OnTimer(RunTooltip(s, evs), 0);
      r.displayIndex == evs[|evs| - 1].index && r.visible && r.timers == []
      && TooltipText(r) == TooltipLabels[evs[|evs| - 1].index]
  {
    DisplayChangesOnlyOnTimer(s, evs);
  }

  /** Coming back to the displayed index before the timeout fires clears the
      timeout and leaves the label hidden; later firings change nothing. */
  lemma ReturnBeforeTimerStaysHidden(s: TooltipState, other: int, firings: seq<TooltipEvent>)
    requires TooltipInv(s) && s.timers == [] && ValidIndex(other) && other != s.displayIndex
    requires forall j :: 0 <= j < |firings| ==> firings[j].TimerFired?
    ensures var r := RunTooltip(s, [ActiveIndexChanged(other), ActiveIndexChanged(s.displayIndex)]);
      r.displayIndex == s.displayIndex && !r.visible && r.timers == []
      && RunTooltip(r, firings) == r
  {
    var evs := [ActiveIndexChanged(other), ActiveIndexChanged(s.displayIndex)];
    var s1 := OnActiveIndex(s, other);
    assert RunTooltip(s, evs) == RunTooltip(s1, evs[1..]);
    var s2 := OnActiveIndex(s1, s.displayIndex);
    assert RunTooltip(s1, evs[1..]) == RunTooltip(s2, []);
    FiringsWithoutTimer(s2, firings);
  }

  lemma {:induction false} FiringsWithoutTimer(s: TooltipState, firings: seq<TooltipEvent>)
    requires TooltipInv(s) && s.timers == []
    requires forall j :: 0 <= j < |firings| ==> firings[j].TimerFired?
    ensures RunTooltip(s, firings) == s
    decreases |firings|
  {
    if firings != [] {
      FiringsWithoutTimer(s, firings[1..]);
    }
  }

  /** The Tooltip component: state fields mutated by its effect and timeouts. */
  class Tooltip {
    var activeIndex: int
    var displayIndex: int
    var visible: bool
    var timers: seq<Timer>
    var cleanup: Option<nat>
    var nextTimerId: nat

    function State(): TooltipState
      reads this
    {
      TooltipState(activeIndex, displayIndex, visible, timers, cleanup, nextTimerId)
    }

    predicate Valid()
      reads this
    {
      TooltipInv(State())
    }

    constructor (active: int)
      requires ValidIndex(active)
      ensures Valid() && State() == TooltipInit(active)
    {
      activeIndex, displayIndex, visible := active, active, true;
      timers, cleanup, nextTimerId := [], None, 1;
    }

    /** The effect body, after the previous run's cleanup. */
    method Effect()
      modifies this
      ensures State() == RunEffect(old(State()))
    {
      if cleanup.Some? {
        timers := Cancel(timers, cleanup.value);  // clearTimeout(timeout)
      }
      cleanup := None;
      if activeIndex == displayIndex {
        return;
      }
      visible := false;
      timers := timers + [Handle(nextTimerId, activeIndex)];  // setTimeout
      cleanup := Some(nextTimerId);
      nextTimerId := nextTimerId + 1;
    }

    /** A render with prop `active`. */
    method Rerender(active: int)
      requires Valid() && ValidIndex(active)
      modifies this
      ensures Valid() && State() == OnActiveIndex(old(State()), active)
    {
      if active == activeIndex {
        return;
      }
      activeIndex := active;
      Effect();
    }

    /** The k-th armed timeout's callback runs. */
    method Fire(k: nat)
      requires Valid() && k < |timers|
      modifies this
      ensures Valid() && State() == OnTimer(old(State()), k)
    {
      var t := timers[k];
      timers := Without(timers, k);
      var changed := t.payload != displayIndex;
      displayIndex := t.payload;
      visible := true;
      if changed {
        Effect();
      }
    }
  }

  /** The CircleComponent: the dial's state fields and its Tooltip child. */
  class CircleComponent {
    var activeIndex: int
    var rotation: int
    const tooltip: Tooltip

    function State(): DialState
      reads this
    {
      DialState(activeIndex, rotation)
    }

    predicate Valid()
      reads this, tooltip
    {
      DialInv(State()) && tooltip.Valid() && tooltip.activeIndex == activeIndex
    }

    constructor ()
      ensures Valid() && State() == DialState(0, 0)
      ensures fresh(tooltip) && tooltip.State() == TooltipInit(0)
    {
      activeIndex, rotation := 0, 0;
      tooltip := new Tooltip(0);
    }

    /** `handleClick`: returns the index passed to `onIndexChange`, if any.
        The gsap tween is not modelled; the state update does not wait for it. */
    method HandleClick(newIndex: int) returns (notified: Option<int>)
      requires Valid() && ValidIndex(newIndex)
      modifies this, tooltip
      ensures Valid()
      ensures State() == Click(old(State()), newIndex)
      ensures notified == Notification(old(State()), newIndex)
      ensures tooltip.State() == OnActiveIndex(old(tooltip.State()), newIndex)
    {
      if newIndex == activeIndex {
        return None;
      }
      var delta := NormalizedDelta(activeIndex, newIndex);
      rotation := rotation - delta;
      activeIndex := newIndex;
      tooltip.Rerender(newIndex);
      notified := Some(newIndex);
    }

    method GoToNext() returns (notified: Option<int>)
      requires Valid()
      modifies this, tooltip
      ensures Valid()
      ensures State() == DialState(NextIndex(old(activeIndex)), old(rotation) - AnglePerStep)
      ensures notified == Some(NextIndex(old(activeIndex)))
      ensures tooltip.State() == OnActiveIndex(old(tooltip.State()), activeIndex)
    {
      GoToNextTurnsOneStep(State());
      notified := HandleClick(NextIndex(activeIndex));
    }

    method GoToPrev() returns (notified: Option<int>)
      requires Valid()
      modifies this, tooltip
      ensures Valid()
      ensures State() == DialState(PrevIndex(old(activeIndex)), old(rotation) + AnglePerStep)
      ensures notified == Some(PrevIndex(old(activeIndex)))
      ensures tooltip.State() == OnActiveIndex(old(tooltip.State()), activeIndex)
    {
      GoToPrevTurnsOneStep(State());
      notified := HandleClick(PrevIndex(activeIndex));
    }
  }
}
