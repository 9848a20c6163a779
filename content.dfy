/** The timeline panel of src/Content.tsx: the section index it owns, the
    table of year ranges, the frame-by-frame chase of the displayed year
    range toward the selected section's range, the progress label and the
    row of dots of PointsPanel. */
module ContentPanel {
  import opened Wrappers
  import opened Circle
  import opened Scheduler

  datatype YearRange = YearRange(start: int, end: int)

  /** `sectionYearRanges`: one (start, end) pair per point of the dial. */
  const SectionYearRanges: seq<YearRange> := [
    YearRange(1999, 2004),
    YearRange(1987, 1991),
    YearRange(1992, 1997),
    YearRange(2008, 2013),
    YearRange(1987, 1991),
    YearRange(2015, 2022)
  ]

  /** The year range shown before any selection. */
  const InitialYearRange: YearRange := YearRange(1999, 2004)

  lemma YearTableShape()
    ensures |SectionYearRanges| == TotalPoints
    ensures forall i :: 0 <= i < |SectionYearRanges| ==> SectionYearRanges[i].start <= SectionYearRanges[i].end
    ensures SectionYearRanges[0] == InitialYearRange
    ensures SectionYearRanges[1] == SectionYearRanges[4]
  {
  }

  /** `sectionYearRanges[newIndex]`: every section's range is non-empty. */
  function SectionRange(i: int): (r: YearRange)
    requires ValidIndex(i)
    ensures r.start <= r.end
    ensures r in SectionYearRanges
  {
    SectionYearRanges[i]
  }

  // ---------------------------------------------------------------------
  // The chase (animateYearRange)
  // ---------------------------------------------------------------------

  /** The state the scheduled `animate` closure carries: the local `start`,
      the fixed `step`, and the target pair. */
  datatype Chase = Chase(start: int, step: int, targetStart: int, targetEnd: int)

  /** `step` points from `start` toward `targetStart`, or `start` is there. */
  predicate Toward(c: Chase) {
    || (c.step == 1 && c.start <= c.targetStart)
    || (c.step == -1 && c.start >= c.targetStart)
  }

  /** `targetStart > start ? 1 : -1`. */
  function StepToward(start: int, targetStart: int): (step: int)
    ensures step == 1 || step == -1
    ensures start < targetStart <==> step == 1
  {
    if targetStart > start then 1 else -1
  }

  /** A chase that begins from the displayed start year toward `target`. */
  function ChaseTo(currentStart: int, target: YearRange): (c: Chase)
    ensures Toward(c) && c.start == currentStart
    ensures c.targetStart == target.start && c.targetEnd == target.end
  {
    Chase(currentStart, StepToward(currentStart, target.start), target.start, target.end)
  }

  /** What one call of `animate` shows, and the chase it schedules, if any. */
  datatype Tick = Tick(shown: YearRange, next: Option<Chase>)

  /** Number of `animate` calls left, this one included. */
  function Remaining(c: Chase): nat {
    if c.start <= c.targetStart then c.targetStart - c.start + 1 else c.start - c.targetStart + 1
  }

  /** One call of `animate`: short of the target, move `start` one year
      toward it, show it with the target's span and schedule the next frame;
      at the target, show the exact target pair and clear the handle. */
  function Animate(c: Chase): (t: Tick)
    requires Toward(c)
    ensures t.shown.end - t.shown.start == c.targetEnd - c.targetStart
    ensures t.next.None? <==> c.start == c.targetStart
    ensures t.next.None? ==> t.shown == YearRange(c.targetStart, c.targetEnd)
    ensures t.next.Some? ==> var n := t.next.value;
      && Toward(n) && n.step == c.step && n.targetStart == c.targetStart && n.targetEnd == c.targetEnd
      && n.start == c.start + c.step && t.shown.start == n.start
      && Remaining(n) == Remaining(c) - 1
  {
    if c.start != c.targetStart then
      var start := c.start + c.step;
      Tick(YearRange(start, start + (c.targetEnd - c.targetStart)), Some(c.(start := start)))
    else
      Tick(YearRange(c.targetStart, c.targetEnd), None)
  }

  /** Every pair shown by `animate` from chase `c` on, until the handle clears.
      There are `Remaining(c)` of them and the last is the exact target. */
  function Trace(c: Chase): (tr: seq<YearRange>)
    requires Toward(c)
    ensures |tr| == Remaining(c)
    ensures tr[|tr| - 1] == YearRange(c.targetStart, c.targetEnd)
    decreases Remaining(c)
  {
    var t := Animate(c);
    match t.next
    case None => [t.shown]
    case Some(n) => [t.shown] + Trace(n)
  }

  /** Every shown pair has the target's span, from the first frame on. */
  lemma {:induction false} TraceKeepsTargetSpan(c: Chase, k: nat)
    requires Toward(c) && k < Remaining(c)
    ensures Trace(c)[k].end - Trace(c)[k].start == c.targetEnd - c.targetStart
    decreases k
  {
    if k > 0 {
      TraceKeepsTargetSpan(Animate(c).next.value, k - 1);
    }
  }

  /** Monotonic progress: the k-th shown start is exactly k+1 years from the
      chase's start, toward the target, for every stepping frame. */
  lemma {:induction false} TraceSteps(c: Chase, k: nat)
    requires Toward(c) && k < Remaining(c) - 1
    ensures Trace(c)[k].start == if c.step == 1 then c.start + k + 1 else c.start - k - 1
    decreases k
  {
    var t := Animate(c);
    if k > 0 {
      TraceSteps(t.next.value, k - 1);
    }
  }

  /** No frame overshoots: every shown start lies between the chase's start
      and the target start, both inclusive (they coincide when the chase
      starts on its target). */
  lemma TraceNeverOvershoots(c: Chase, k: nat)
    requires Toward(c) && k < Remaining(c)
    ensures c.step == 1 ==> c.start <= Trace(c)[k].start <= c.targetStart
    ensures c.step == -1 ==> c.targetStart <= Trace(c)[k].start <= c.start
  {
    if k < Remaining(c) - 1 {
      TraceSteps(c, k);
    }
  }

  /** A whole chase from the displayed start year: `|targetStart - start|`
      stepping frames, then the exact target; the synchronous first call
      alone snaps when the start years already agree. */
  lemma WholeChase(currentStart: int, target: YearRange)
    ensures var tr := Trace(ChaseTo(currentStart, target));
      && |tr| == Abs(target.start - currentStart) + 1
      && tr[|tr| - 1] == target
      && (forall k :: 0 <= k < |tr| ==> tr[k].end - tr[k].start == target.end - target.start)
      && (currentStart == target.start ==> tr == [target])
  {
    var c := ChaseTo(currentStart, target);
    forall k | 0 <= k < Remaining(c)
      ensures Trace(c)[k].end - Trace(c)[k].start == target.end - target.start
    {
      TraceKeepsTargetSpan(c, k);
    }
  }

  // ---------------------------------------------------------------------
  // Rendering helpers
  // ---------------------------------------------------------------------

  /** `{sectionIndex + 1}/6`: a single digit, then "/6". */
  function ProgressLabel(sectionIndex: int): (text: string)
    requires ValidIndex(sectionIndex)
    ensures |text| == 3 && text[1..] == "/6"
    ensures text[0] as int - '0' as int == sectionIndex + 1
  {
    [('1' as int + sectionIndex) as char] + "/6"
  }

  /** PointsPanel: one dot per table entry, `true` for the dot marked active. */
  function PointsPanel(ranges: seq<YearRange>, activeIndex: int): (dots: seq<bool>)
    ensures |dots| == |ranges|
    ensures forall i :: 0 <= i < |dots| ==> (dots[i] <==> i == activeIndex)
  {
    seq(|ranges|, i => i == activeIndex)
  }

  function CountMarked(dots: seq<bool>): nat {
    if dots == [] then 0 else CountMarked(dots[..|dots| - 1]) + (if dots[|dots| - 1] then 1 else 0)
  }

  /** Exactly one dot is marked when the index is in range, none otherwise. */
  lemma {:induction false} PointsPanelMarksOne(ranges: seq<YearRange>, activeIndex: int)
    ensures CountMarked(PointsPanel(ranges, activeIndex)) == if 0 <= activeIndex < |ranges| then 1 else 0
    decreases |ranges|
  {
    if ranges != [] {
      var dots := PointsPanel(ranges, activeIndex);
      var prefix := ranges[..|ranges| - 1];
      assert dots[..|dots| - 1] == PointsPanel(prefix, activeIndex);
      PointsPanelMarksOne(prefix, activeIndex);
    }
  }

  // ---------------------------------------------------------------------
  // The Content component
  // ---------------------------------------------------------------------

  /** The pending frame's chase agrees with the displayed pair. */
  predicate InFlight(c: Chase, shown: YearRange) {
    Toward(c) && shown.start == c.start && shown.end - shown.start == c.targetEnd - c.targetStart
  }

  /** A frame scheduled with `requestAnimationFrame`: its id and the chase
      its `animate` closure carries. */
  type Frame = Handle<Chase>

  /** The pairs the scheduled frames will still show, in order. */
  function PendingTraceOf(frames: seq<Frame>): seq<YearRange>
    requires frames != [] ==> Toward(frames[0].payload)
  {
    if frames == [] then [] else Trace(frames[0].payload)
  }

  /** The frames scheduled after an `animate` call that returned `t`, when
      none were scheduled before it and `id` is the next frame id. */
  function FramesAfter(t: Tick, id: nat): seq<Frame> {
    match t.next
    case None => []
    case Some(n) => [Handle(id, n)]
  }

  /** `animationRef` after that call. */
  function RefAfter(t: Tick, id: nat): Option<nat> {
    if t.next.Some? then Some(id) else None
  }

  lemma TraceUnfolds(c: Chase, id: nat)
    requires Toward(c)
    ensures Trace(c) == [Animate(c).shown] + PendingTraceOf(FramesAfter(Animate(c), id))
  {
  }

  class Content {
    const circle: CircleComponent
    var sectionIndex: int
    var yearRange: YearRange
    /** The frames scheduled and not yet run or cancelled. */
    var frames: seq<Frame>
    /** `animationRef.current`: the id of the last frame `animate` scheduled. */
    var animationRef: Option<nat>
    /** The id the next `requestAnimationFrame` returns (browsers start at 1). */
    var nextFrameId: nat

    /** At most one frame is scheduled, exactly when `animationRef` is set;
        it is the one `animationRef` names, and its chase agrees with the
        displayed pair. */
    predicate ChaseConsistent()
      reads this
    {
      && 1 <= nextFrameId
      && |frames| <= 1
      && (frames == [] <==> animationRef.None?)
      && (frames != [] ==>
            && animationRef == Some(frames[0].id) && 1 <= frames[0].id < nextFrameId
            && InFlight(frames[0].payload, yearRange))
    }

    /** Idle, the section's range is shown; chasing, it is the target. */
    predicate ChaseTargetsSection()
      reads this
    {
      && ValidIndex(sectionIndex)
      && if frames == [] then yearRange == SectionRange(sectionIndex)
         else YearRange(frames[0].payload.targetStart, frames[0].payload.targetEnd) == SectionRange(sectionIndex)
    }

    predicate Valid()
      reads this, circle, circle.tooltip
    {
      && circle.Valid() && circle.activeIndex == sectionIndex
      && ChaseConsistent() && ChaseTargetsSection()
    }

    /** After the first `animate` call of a chase that returned `t`, with `id`
        the next frame id before it: the pair it showed is displayed, and the
        only frame scheduled is the one it scheduled, if any. */
    predicate StartedChase(t: Tick, id: nat)
      reads this
    {
      yearRange == t.shown && frames == FramesAfter(t, id) && animationRef == RefAfter(t, id)
    }

    /** The pairs the scheduled chase will still show, in order. */
    function PendingTrace(): seq<YearRange>
      reads this
      requires ChaseConsistent()
    {
      PendingTraceOf(frames)
    }

    constructor ()
      ensures Valid() && fresh(circle) && fresh(circle.tooltip)
      ensures circle.State() == DialState(0, 0) && circle.tooltip.State() == TooltipInit(0)
      ensures sectionIndex == 0 && yearRange == InitialYearRange
      ensures frames == [] && animationRef == None
    {
      circle := new CircleComponent();
      sectionIndex := 0;
      yearRange := InitialYearRange;
      frames, animationRef, nextFrameId := [], None, 1;
    }

    /** One call of the `animate` closure: it writes the pair and, short of
        the target, schedules the next frame and records its id. */
    method RunAnimate(c: Chase)
      requires Toward(c)
      modifies this`yearRange, this`frames, this`animationRef, this`nextFrameId
      ensures yearRange == Animate(c).shown
      ensures frames == old(frames) + FramesAfter(Animate(c), old(nextFrameId))
      ensures animationRef == RefAfter(Animate(c), old(nextFrameId))
      ensures nextFrameId == old(nextFrameId) + if Animate(c).next.Some? then 1 else 0
    {
      var start := c.start;
      if start != c.targetStart {
        start := start + c.step;
        yearRange := YearRange(start, start + (c.targetEnd - c.targetStart));
        frames := frames + [Handle(nextFrameId, c.(start := start))];  // requestAnimationFrame
        animationRef := Some(nextFrameId);
        nextFrameId := nextFrameId + 1;
      } else {
        yearRange := YearRange(c.targetStart, c.targetEnd);
        animationRef := None;
      }
    }

    /** `animateYearRange(newIndex)`: cancel the frame `animationRef` names,
        then run the first `animate` call synchronously from the displayed
        start year. No frame scheduled before survives. */
    method AnimateYearRange(newIndex: int)
      requires ValidIndex(newIndex) && ChaseConsistent()
      modifies this`yearRange, this`frames, this`animationRef, this`nextFrameId
      ensures ChaseConsistent()
      ensures StartedChase(Animate(ChaseTo(old(yearRange.start), SectionRange(newIndex))), old(nextFrameId))
      ensures forall j :: 0 <= j < |old(frames)| ==> old(frames)[j] !in frames
    {
      var target := SectionRange(newIndex);
      var currentStart := yearRange.start;
      if animationRef.Some? && animationRef.value != 0 {
        frames := Cancel(frames, animationRef.value);  // cancelAnimationFrame
      }
      var start := currentStart;
      var step := if target.start > start then 1 else -1;
      RunAnimate(Chase(start, step, target.start, target.end));
    }

    /** `handleIndexChange(newIndex)`, the dial's `onIndexChange` callback. */
    method HandleIndexChange(newIndex: int)
      requires ValidIndex(newIndex) && ChaseConsistent()
      modifies this`yearRange, this`frames, this`animationRef, this`nextFrameId, this`sectionIndex
      ensures sectionIndex == newIndex
      ensures StartedChase(Animate(ChaseTo(old(yearRange.start), SectionRange(newIndex))), old(nextFrameId))
      ensures ChaseConsistent() && ChaseTargetsSection()
    {
      AnimateYearRange(newIndex);
      sectionIndex := newIndex;
    }

    /** Deliver the dial's notification to `handleIndexChange`. */
    method Notify(notified: Option<int>)
      requires notified.Some? ==> ValidIndex(notified.value)
      requires ChaseConsistent()
      modifies this`yearRange, this`frames, this`animationRef, this`nextFrameId, this`sectionIndex
      ensures ChaseConsistent()
      ensures notified.None? ==>
        && sectionIndex == old(sectionIndex) && yearRange == old(yearRange)
        && frames == old(frames) && animationRef == old(animationRef)
      ensures notified.Some? ==>
        && sectionIndex == notified.value && ChaseTargetsSection()
        && StartedChase(Animate(ChaseTo(old(yearRange.start), SectionRange(notified.value))), old(nextFrameId))
    {
      if notified.Some? {
        HandleIndexChange(notified.value);
      }
    }

    /** A click on dial point `i`. */
    method ClickPoint(i: int)
      requires Valid() && ValidIndex(i)
      modifies this, circle, circle.tooltip
      ensures Valid() && sectionIndex == i
      ensures circle.State() == Click(old(circle.State()), i)
      ensures circle.tooltip.State() == OnActiveIndex(old(circle.tooltip.State()), i)
      ensures i == old(sectionIndex) ==>
        yearRange == old(yearRange) && frames == old(frames) && animationRef == old(animationRef)
      ensures i != old(sectionIndex) ==>
        StartedChase(Animate(ChaseTo(old(yearRange.start), SectionRange(i))), old(nextFrameId))
    {
      var notified := circle.HandleClick(i);
      Notify(notified);
    }

    /** The "next" control (no disabling at the last section). */
    method ClickNext()
      requires Valid()
      modifies this, circle, circle.tooltip
      ensures Valid() && sectionIndex == NextIndex(old(sectionIndex))
      ensures circle.rotation == old(circle.rotation) - AnglePerStep
      ensures circle.tooltip.State() == OnActiveIndex(old(circle.tooltip.State()), sectionIndex)
      ensures StartedChase(Animate(ChaseTo(old(yearRange.start), SectionRange(sectionIndex))), old(nextFrameId))
    {
      var notified := circle.GoToNext();
      Notify(notified);
    }

    /** The "prev" control (no disabling at the first section). */
    method ClickPrev()
      requires Valid()
      modifies this, circle, circle.tooltip
      ensures Valid() && sectionIndex == PrevIndex(old(sectionIndex))
      ensures circle.rotation == old(circle.rotation) + AnglePerStep
      ensures circle.tooltip.State() == OnActiveIndex(old(circle.tooltip.State()), sectionIndex)
      ensures StartedChase(Animate(ChaseTo(old(yearRange.start), SectionRange(sectionIndex))), old(nextFrameId))
    {
      var notified := circle.GoToPrev();
      Notify(notified);
    }

    /** The k-th scheduled frame fires: it leaves the schedule and runs one
        `animate` call. */
    method Frame(k: nat)
      requires ChaseConsistent() && ChaseTargetsSection() && k < |frames|
      modifies this`yearRange, this`frames, this`animationRef, this`nextFrameId
      ensures ChaseConsistent() && ChaseTargetsSection()
      ensures StartedChase(Animate(old(frames)[k].payload), old(nextFrameId))
    {
      var fired := frames[k];
      frames := Without(frames, k);
      RunAnimate(fired.payload);
    }

    /** The k-th armed timeout of the Tooltip fires. */
    method TooltipTimerFires(k: nat)
      requires Valid() && k < |circle.tooltip.timers|
      modifies circle.tooltip
      ensures Valid()
      ensures circle.tooltip.State() == OnTimer(old(circle.tooltip.State()), k)
    {
      circle.tooltip.Fire(k);
    }

    /** Let scheduled frames fire until none is left; returns every pair
        shown on the way. A scheduled chase ends on the section's exact
        range after `Remaining` frames, with `animationRef` cleared. */
    method Settle() returns (shown: seq<YearRange>)
      requires Valid()
      modifies this`yearRange, this`frames, this`animationRef, this`nextFrameId
      ensures Valid() && frames == [] && animationRef == None
      ensures yearRange == SectionRange(sectionIndex)
      ensures shown == old(PendingTrace())
      ensures old(frames) != [] ==> |shown| == Remaining(old(frames)[0].payload)
    {
      shown := [];
      ghost var all := PendingTrace();
      while frames != []
        invariant ChaseConsistent() && ChaseTargetsSection()
        invariant shown + PendingTrace() == all
        decreases if frames != [] then Remaining(frames[0].payload) else 0
      {
        ghost var before := PendingTrace();
        TraceUnfolds(frames[0].payload, nextFrameId);
        Frame(0);
        assert before == [yearRange] + PendingTrace();
        assert (shown + [yearRange]) + PendingTrace() == shown + before;
        shown := shown + [yearRange];
      }
    }
  }
}
