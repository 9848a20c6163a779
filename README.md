# Historical dates timeline: a Dafny model of the dial and the year chase

This project models the two state machines of the historical-timeline
widget:

- **The selector dial** (`src/CircleComponent.tsx`): six points on a circle,
  an active index in [0, 6) and an unbounded accumulated rotation. Selecting
  another point turns the dial by the short way round (a signed delta folded
  into [-180, 180]) and reports the new index upward through `onIndexChange`;
  `goToNext` / `goToPrev` select the neighbouring point modulo 6. Its
  `Tooltip` child hides its label when the active index changes and shows the
  new one when a single pending timer fires.
- **The timeline panel** (`src/Content.tsx`): it owns the section index and
  the table of six year ranges. On every section change it cancels any
  scheduled animation frame and chases the displayed (start, end) pair
  toward the new section's range, one year per frame, always showing the
  target's span. It also renders a progress label and one dot per section
  (`PointsPanel`).

Layout:

- `wrappers.dfy`: module `Wrappers`, the `Option` datatype (an absent handle,
  a callback that may or may not be called).
- `scheduler.dfy`: module `Scheduler`. A callback scheduled with
  `requestAnimationFrame` or `setTimeout` is a `Handle`: its id and the
  state its closure captured. `Cancel` is `cancelAnimationFrame` /
  `clearTimeout`.
- `circle.dfy`: module `Circle`. Pure specifications (`NormalizedDelta`,
  `Click`, `OnActiveIndex`, `OnTimer`, ...), lemmas about them, and the
  classes `Tooltip` and `CircleComponent`. Their methods update the fields
  and are proved against those functions.
- `content.dfy`: module `ContentPanel`. The year table, the chase
  specification (`Animate`, `Trace`) with its lemmas, `PointsPanel`, and the
  class `Content`, which owns a `CircleComponent`.

Modelling choices:

- React component state becomes the fields of a sequential object. The
  `onIndexChange` callback becomes the `notified: Option<int>` result of the
  dial's methods. `Content.Notify` passes it on to `HandleIndexChange`.
- Scheduled frames are a collection, `Content.frames`. Each frame carries
  the `Chase` its `animate` closure holds: the local `start`, the fixed
  `step` and the target pair. `animationRef` holds the id of the last frame
  `animate` scheduled. `AnimateYearRange` cancels that id when it is set and
  non-zero, as the truthiness test does. `Content.Frame(k)` is the k-th
  scheduled frame firing. `Content.Settle` lets frames fire in a loop until
  none is left. Frame ids start at 1, as browsers' do. Because of the
  cancel, at most one frame is ever scheduled, and it is the one
  `animationRef` names; this is part of `Content.Valid`.
- Armed timeouts are a collection too, `Tooltip.timers`. Each timeout
  carries the index its callback will display. `cleanup` is the id the
  current effect's cleanup clears. The effect depends on
  `[activeIndex, displayIndex]`, so a render whose prop did not change does
  not re-run it. When it re-runs, the previous run's cleanup clears its
  timeout first. Because of that, at most one timeout is ever armed
  (`TooltipInv`). `Tooltip.Fire(k)` is the k-th armed timeout firing. The
  display then changes, so the effect re-runs, finds the index displayed and
  arms nothing.
- Behaviour of the code that a reader might expect otherwise:
  - the prev/next controls are never disabled, so "prev" at index 0 wraps
    to 5 and "next" at 5 wraps to 0;
  - the progress label is the plain `{sectionIndex + 1}/6`, not zero-padded;
  - the table entry for section 3 is [2008, 2013];
  - the folded delta lies in [-180, 180], and both ends are reached, because
    the two tests are strict: +3 points stays +180 and -3 points stays -180;
  - the new rotation is the old one minus the folded delta.

## Model

| member | source | states |
|---|---|---|
| Scheduler.Cancel | src/Content.tsx:24-26 | Cancelling an id removes every scheduled callback with that id and keeps every other one. |
| Scheduler.Without | src/Content.tsx:35 | A callback that runs leaves the schedule, and the others keep their order. |
| Circle.AnglePerStepDividesTurn | src/CircleComponent.tsx:15-28 | The step angle 360 / 6 divides exactly: it is 60 and six steps make 360, so the integer angle loses nothing against the floating-point one. |
| Circle.NextIndex | src/CircleComponent.tsx:21 | goToNext's index stays in [0, 6): it is the next index, or 0 after 5. |
| Circle.PrevIndex | src/CircleComponent.tsx:22 | goToPrev's index stays in [0, 6): it is the previous index, or 5 before 0. |
| Circle.NextPrevInverse | src/CircleComponent.tsx:21-22 | goToPrev undoes goToNext and goToNext undoes goToPrev. |
| Circle.NormalizedDelta | src/CircleComponent.tsx:28-34 | The folded delta lies in [-180, 180] and is congruent mod 360 to 60·(new − active). It is 0 exactly for the same index, 180 exactly for a difference of +3, −180 exactly for −3. |
| Circle.NormalizedDeltaIsShortest | src/CircleComponent.tsx:32-34 | No other representative 60·(new − active) + 360·k of the angle is shorter: the dial turns the short way round. |
| Circle.NormalizedDeltaEnds | src/CircleComponent.tsx:32-34 | Both ends are reached (0→3 gives 180, 5→2 gives −180), and 0→5 gives −60. |
| Circle.Click | src/CircleComponent.tsx:25-45 | handleClick sets the active index to the requested one. The current index changes nothing. The rotation moves by at most 180. The invariant rotation + 60·activeIndex ≡ 0 (mod 360) is preserved. |
| Circle.Notification | src/CircleComponent.tsx:26-46 | onIndexChange is called, with the new index, exactly when the index differs from the active one. |
| Circle.GoToNextTurnsOneStep | src/CircleComponent.tsx:21-36 | goToNext always lowers the rotation by exactly 60, the step 5→0 included. |
| Circle.GoToPrevTurnsOneStep | src/CircleComponent.tsx:22-36 | goToPrev always raises the rotation by exactly 60, the step 0→5 included. |
| Circle.NextTimesEffect | src/CircleComponent.tsx:21-36 | n goToNext calls give index (active + n) mod 6 and lower the rotation by 60·n. |
| Circle.SixNextsCloseTheLoop | src/CircleComponent.tsx:16-36 | Six goToNext calls return to the same index with the rotation 360 lower, and the dial invariant still holds. |
| Circle.TooltipInit | src/CircleComponent.tsx:94-95 | On mount the initial index is displayed, the label is visible and no timeout is armed. |
| Circle.OnActiveIndex | src/CircleComponent.tsx:97-108 | A new active index never changes the displayed one, and an unchanged one changes nothing. A changed index clears every previously armed timeout. If the new index differs from the displayed one, the label is hidden and exactly one fresh timeout is armed for it. If it equals the displayed one, no timeout remains and visibility is unchanged. |
| Circle.OnTimer | src/CircleComponent.tsx:102-108 | An armed timeout firing displays the current active index, makes the label visible and leaves no timeout armed. An index that names no armed timeout changes nothing. |
| Circle.RunTooltip | src/CircleComponent.tsx:97-108 | Any sequence of prop changes and timeout firings keeps the tooltip invariant: at most one timeout is armed, exactly while the display lags, it is the effect's own, and the label is hidden meanwhile. |
| Circle.DisplayChangesOnlyOnTimer | src/CircleComponent.tsx:98-107 | A burst of index changes without a firing never changes the displayed index or its label, so an intermediate index is never shown. The active index ends at the last change. |
| Circle.LastChangeWins | src/CircleComponent.tsx:100-107 | After a burst of changes exactly one timeout is armed, for the last index. When it fires, that index and its label are shown, visibly, with nothing left armed. |
| Circle.ReturnBeforeTimerStaysHidden | src/CircleComponent.tsx:98-107 | Going to another index and back before the timeout fires clears the timeout and leaves the label hidden. Later firing events change nothing. |
| Circle.Tooltip.constructor | src/CircleComponent.tsx:94-95 | The new Tooltip's state is the mounted state. |
| Circle.Tooltip.Rerender | src/CircleComponent.tsx:97-108 | A render with a new prop updates the fields as OnActiveIndex and keeps the tooltip invariant. |
| Circle.Tooltip.Effect | src/CircleComponent.tsx:98-107 | The effect body, after clearing the previous run's timeout, updates the fields as RunEffect. |
| Circle.Tooltip.Fire | src/CircleComponent.tsx:102-105 | The k-th armed timeout's callback and the effect re-run it causes update the fields as OnTimer. |
| Circle.CircleComponent.constructor | src/CircleComponent.tsx:16-17 | The dial starts at index 0 and rotation 0, which satisfies the dial invariant, with its Tooltip mounted on index 0. |
| Circle.CircleComponent.HandleClick | src/CircleComponent.tsx:25-47 | The state becomes Click of the old state, the callback result is Notification, and the Tooltip sees the new index. The dial invariant is kept. |
| Circle.CircleComponent.GoToNext | src/CircleComponent.tsx:21 | The index becomes NextIndex and the rotation drops by 60. The new index is always reported. |
| Circle.CircleComponent.GoToPrev | src/CircleComponent.tsx:22 | The index becomes PrevIndex and the rotation rises by 60. The new index is always reported. |
| ContentPanel.YearTableShape | src/Content.tsx:8-18 | The table has 6 entries, each with start ≤ end. The initial range [1999, 2004] is entry 0. Sections 1 and 4 share a range. |
| ContentPanel.SectionRange | src/Content.tsx:11-21 | The range looked up for a section is a table entry with start ≤ end. |
| ContentPanel.StepToward | src/Content.tsx:29 | The step is +1 exactly when the target start is above the current start, and −1 otherwise. |
| ContentPanel.ChaseTo | src/Content.tsx:21-29 | A chase starts at the displayed start year, toward the section's pair, with its step pointing toward the target. |
| ContentPanel.Animate | src/Content.tsx:31-40 | One animate call shows a pair with the target's span. It stops (handle cleared) exactly at the target start, showing the exact target. Otherwise it moves start one year toward the target without overshooting and schedules the next frame with one call fewer remaining. |
| ContentPanel.Trace | src/Content.tsx:31-42 | A chase shows exactly Remaining(c) pairs, one per animate call, and the last is the exact target pair. |
| ContentPanel.TraceKeepsTargetSpan | src/Content.tsx:34 | Every shown pair has end − start equal to the target's span, not the outgoing one. |
| ContentPanel.TraceSteps | src/Content.tsx:28-35 | The k-th stepping frame shows start exactly k+1 years from the chase's start, in the step's direction. |
| ContentPanel.TraceNeverOvershoots | src/Content.tsx:29-33 | Every shown start lies between the chase's start and the target start. |
| ContentPanel.WholeChase | src/Content.tsx:20-42 | A chase from the displayed start shows abs(targetStart − currentStart) + 1 pairs, each with the target span, ending on the exact target. With equal start years, the synchronous call alone snaps to the target. |
| ContentPanel.ProgressLabel | src/Content.tsx:67 | The label is the one digit sectionIndex + 1 followed by "/6". |
| ContentPanel.PointsPanel | src/Content.tsx:92-102 | There is one dot per table entry, and dot i is marked active exactly when i equals the active index. |
| ContentPanel.PointsPanelMarksOne | src/Content.tsx:95-98 | Exactly one dot is marked for an in-range index, and none otherwise. |
| ContentPanel.Content.constructor | src/Content.tsx:6-9 | The panel starts at section 0 showing [1999, 2004] with no frame scheduled. Its dial is at index 0 and rotation 0, and its Tooltip is in the mounted state. |
| ContentPanel.Content.RunAnimate | src/Content.tsx:31-40 | One call of the animate closure shows Animate's pair. Short of the target it schedules one new frame, carrying the advanced chase, under a fresh id that animationRef records. At the target it schedules nothing and clears animationRef. |
| ContentPanel.Content.AnimateYearRange | src/Content.tsx:20-43 | The frame animationRef names is cancelled first, so no frame scheduled before the call survives. Then the first animate call runs synchronously for a chase from the displayed start year toward the section's range. The only frame left is the one it scheduled, if any. |
| ContentPanel.Content.HandleIndexChange | src/Content.tsx:45-48 | Starts the chase toward the new section's range, as AnimateYearRange, and sets the section index. |
| ContentPanel.Content.Notify | src/Content.tsx:55 | The dial's callback runs handleIndexChange exactly when the dial reported a change. |
| ContentPanel.Content.ClickPoint | src/CircleComponent.tsx:61 | Clicking a dial point moves the dial as Click and the Tooltip as OnActiveIndex, and sets the section. A changed index starts the chase. Clicking the current point leaves the dial, the Tooltip, the pair and the frames unchanged. |
| ContentPanel.Content.ClickNext | src/Content.tsx:74-78 | The next control, never disabled, moves to NextIndex, turns the dial by −60, re-renders the Tooltip as OnActiveIndex and starts the chase. |
| ContentPanel.Content.ClickPrev | src/Content.tsx:69-73 | The prev control, never disabled, moves to PrevIndex, turns the dial by +60, re-renders the Tooltip as OnActiveIndex and starts the chase. |
| ContentPanel.Content.Frame | src/Content.tsx:35 | The k-th scheduled frame leaves the schedule and runs one animate call. At most one frame stays scheduled. |
| ContentPanel.Content.TooltipTimerFires | src/CircleComponent.tsx:102-105 | The Tooltip's k-th armed timeout fires, as OnTimer. |
| ContentPanel.Content.Settle | src/Content.tsx:31-39 | Letting scheduled frames fire until none is left shows exactly the scheduled chase's trace, in Remaining frames. It ends on the section's exact range with animationRef cleared. |

## Left out

- The gsap tween (src/CircleComponent.tsx:38-42): it belongs to a third-party animation engine. Only the state update is modelled, and that update does not wait for the tween.
- Dot positions on the circle (src/CircleComponent.tsx:50-55): they use floating-point `Math.cos`/`Math.sin`. The dial dots' `active` class follows the same rule as `PointsPanel`. The counter-rotation of the dot labels is only the negated rotation.
- Real time: `requestAnimationFrame`, the 1100 ms `setTimeout` and the CSS opacity transitions become explicit events (`Content.Frame`, `Tooltip.Fire`) with no clock.
- React mechanics: JSX rendering, CSS class strings, re-render and closure capture, and the `useImperativeHandle` wiring. The dial's handle methods are called directly on the `CircleComponent` object.
- Unmount: the Tooltip's cleanup clears its pending timeout on unmount (src/CircleComponent.tsx:107), and the model has no unmount event. Content has no cleanup for `animationRef`, so in the source a chase in flight at unmount keeps calling `setYearRange`; the model does not capture that either.
- src/SliderComponent.tsx is not part of this model. It is glue around the Swiper carousel and DOM geometry queries, and its event data (`data/events`) is not available.
