# palmo-toast in Dafny

A model of `PalmToast`, the toast notification of palmo-toast (`src/toast.ts`). A toast:

- resolves its options to a configuration;
- builds its element;
- inserts the element into the page after the toasts already shown;
- restacks every toast at its screen corner;
- runs a timer driven by animation frames, which hover and focus on the close button pause and resume;
- fades out and leaves the page once the duration has run or the close button is clicked.

The modules follow that structure:

- `Options`: the options object, the enumerations and the defaulting done by the constructor.
- `Layout`: the toast records on the page and the stacking rule of `repositionToasts`. `Repositioned` is a
  function on sequences. `Reposition` is the in-place loop over an array that is proved to produce it.
- `Dom`: the part of the browser page the toasts touch. A `Document` holds the toast elements in document
  order, hands out element identities and hands out animation-frame handles.
- `Toast`: the `PalmToast` class. The closure variables of `beginTimer` (`startTime`, `pausedStartTime`,
  `pausedDuration`, `elapsedTime`, `isHoverPaused`, `isFocusPaused`) become fields of the object.
  Each browser event (a frame, `mouseenter`, `mouseleave`, `focus`, `blur`, a click, `transitionend`) is a method.
- `Scenarios`: concrete event sequences and the outcomes they must have.

Time is a parameter. Every event that reads the clock takes the clock value at which it happens: a frame, `mouseenter`,
`mouseleave`, `focus` and `blur`. The click and `transitionend` handlers never read the clock (src/toast.ts:107,
212-219), so they take no clock value and leave the ghost `clock` where it was. The clock value stands for both the
frame timestamp and `performance.now()`, since the browser takes both from the same clock. Three ghost fields
record time: `clock`, `runTime` (time the timer has run unpaused since its first frame) and `prestartPause`. The
invariant `ClockValid` ties them to the closure variables. `AnimationFrame` then proves that the elapsed time
it computes is the run time, less any pause that ended before the first frame.

The stacking rule follows the code. A toast moves away from the corner by its own height plus the spacing,
times the number of newer toasts at its corner. This agrees with "the sum of the heights of the newer toasts
plus their gaps" only when the heights are equal (`RepositionedIsStackedWhenUniform`). With an older 50px toast
and a newer 20px one at the same corner, the code lifts the older toast by 60px, where the sum would give 30px
(`RepositionedDiffersFromStacked`, `TwoToastsStack`).

Removal also follows the code. The `transitionend` handler removes the element and restacks the corner
first. It cancels the pending animation frame only after that. Right after removal no frame is requested or
pending, but nothing guarantees this afterwards. The handler removes no listener and keeps the pause flags and
the recorded pause. So a later `blur` or `mouseleave` can restart the frame loop of a toast that has left the
page (`ResumeAfterRemoval`). "No orphaned callbacks" therefore holds only at the moment of removal.

## Model

| member | source | states |
|---|---|---|
| Options.Resolve | src/toast.ts:46-60 | every absent option takes its default (bottom-right, default type, 3000 ms, dismissable, draggable, no time bar, pause on hover); supplied options are kept; the stacking side matches the corner |
| Options.PositionModifier | src/toast.ts:56-59 | the side is `bottom` exactly for the two bottom corners and `top` exactly for the two top corners |
| Options.ResolveExplicit | src/toast.ts:46-55 | resolving the options that spell out a resolved configuration gives that configuration back |
| Toast.PalmToast.constructor | src/toast.ts:46-60 | the toast keeps the resolved options, has no element, is not paused and has no frame requested |
| Toast.RenderedToast | src/toast.ts:62-86 | the element carries the toast's type and corner and no offset; its heading is the heading or the empty string, and its body is the text; the close button exists iff dismissable; the time bar exists iff `showTimer` |
| Toast.PalmToast.CreateToastElement | src/toast.ts:62-86 | creates a new element distinct from every toast on the page; attaches the close button and the time bar exactly when the options ask for them |
| Toast.PalmToast.ShowToast | src/toast.ts:88-99 | the page is the old toasts plus the new element, restacked at the toast's corner; the new toast sits at the corner edge; the first frame is requested, with the timer variables fresh and no pause |
| Toast.PalmToast.RepositionToasts | src/toast.ts:222-233 | the page becomes the restacked layout of its corner |
| Toast.PalmToast.BeginTimer | src/toast.ts:115-201 | the timer variables start afresh and exactly one frame, with a new handle, is requested; the object invariant holds afterwards |
| Toast.PalmToast.ResetTimer | src/toast.ts:116-123 | no start time, no pause recorded, no paused time, and neither hover nor focus holds the toast |
| Toast.PalmToast.RequestTimerFrame | src/toast.ts:200 | `requestAnimationID` is the new handle, and that frame is pending |
| Toast.PalmToast.AnimationFrame | src/toast.ts:125-145 | the first frame fixes the start time; elapsed time is the frame time less the start time and the paused time, which equals the unpaused run time less any pause before the first frame; a new frame is requested iff time remains, otherwise the toast fades with no frame pending |
| Toast.PalmToast.MeasureFrame | src/toast.ts:125-131 | the delivered frame is no longer pending; the start time is set only by the first frame; the elapsed-time formula and its link to the run time |
| Toast.Remaining | src/toast.ts:133 | the remaining time is never negative and never below duration minus elapsed; it is positive iff the elapsed time is below the duration |
| Toast.PalmToast.PauseTimer | src/toast.ts:147-153 | with a frame requested, the frame is cancelled, the handle cleared and the pause start recorded; otherwise nothing changes |
| Toast.PalmToast.ResumeTimer | src/toast.ts:155-161 | a recorded pause is added to the paused time and cleared, and one new frame is requested; without a recorded pause nothing changes |
| Toast.PalmToast.Pause | src/toast.ts:163-168 | the toast ends paused; only the first of overlapping pauses acts on the timer |
| Toast.PalmToast.TryResume | src/toast.ts:170-175 | the toast stays paused iff hover or focus still holds it; only a resume that releases a recorded pause touches the timer |
| Toast.PalmToast.MouseEnter | src/toast.ts:179-182 | with hover listeners attached, hover holds the toast and the timer pauses unless it already was; without them nothing changes; the invariant holds |
| Toast.PalmToast.MouseLeave | src/toast.ts:183-186 | hover is released; the timer resumes only when focus does not hold it and a pause was recorded; paused time never decreases |
| Toast.PalmToast.Focus | src/toast.ts:189-192 | with focus listeners attached, focus holds the toast and the timer pauses unless it already was; without them nothing changes |
| Toast.PalmToast.Blur | src/toast.ts:193-196 | focus is released; the timer resumes only when hover does not hold it and a pause was recorded; paused time never decreases |
| Toast.PalmToast.CloseClick | src/toast.ts:107 | a click on an existing close button fades the toast and installs the removal handler; without a close button nothing happens |
| Toast.PalmToast.RemoveToast | src/toast.ts:208-212 | does nothing before the element exists; otherwise fades the toast and installs the removal handler |
| Toast.PalmToast.TransitionEnd | src/toast.ts:212-219 | once the handler is installed, the element leaves the page, the corner is restacked, and right after removal no frame is requested or pending; before that nothing changes |
| Toast.PalmToast.CancelAnimationFrame | src/toast.ts:215-218 | the cancelled frame is no longer pending; other handles leave the pending frame alone |
| Dom.Document.CreateElement | src/toast.ts:63 | a new element identity, distinct from every toast on the page |
| Dom.Document.InsertBeforeLastChild | src/toast.ts:91 | the new toast follows every toast already on the page, and the identities stay distinct |
| Dom.Document.RemoveElement | src/toast.ts:213 | the page loses exactly that element, and the identities stay distinct |
| Dom.Document.RequestAnimationFrame | src/toast.ts:141 | handles are new on every request and never 0 |
| Dom.Detached | src/toast.ts:213 | removing an element never lengthens the page |
| Dom.DetachedMembers | src/toast.ts:213 | after a removal, exactly the records of the other elements remain |
| Dom.DetachedAt | src/toast.ts:213 | removing the element at position k takes out that record alone and keeps the others in order |
| Dom.DetachedAbsent | src/toast.ts:213 | removing an element that is not on the page changes nothing |
| Dom.DetachedDistinct | src/toast.ts:213 | a removal keeps the element identities distinct |
| Layout.Matching | src/toast.ts:223-225 | the corner query returns one index per toast at the corner |
| Layout.OffsetFor | src/toast.ts:229-230 | the offset is 0 exactly when no newer toast shares the corner; otherwise it is at least the toast's own height plus the spacing |
| Layout.WithOffset | src/toast.ts:231 | the stacking side gets the new offset; the element and the other side's offset are kept |
| Layout.Repositioned | src/toast.ts:222-233 | toasts at other corners are untouched; each toast at the corner keeps its element and gets the offset (own height + 10) times the number of newer toasts there on the stacking side |
| Layout.Reposition | src/toast.ts:222-233 | the loop from the newest toast to the oldest leaves the array holding exactly the restacked layout |
| Layout.StyleOffset | src/toast.ts:229-231 | height times newer count plus spacing times newer count is the stacking offset |
| Layout.OffsetForIsProduct | src/toast.ts:229-231 | the offset is (height + 10) times the number of newer toasts |
| Layout.MatchingExact | src/toast.ts:223-225 | the corner query returns every toast at the corner, only those, each once, in document order |
| Layout.LaterAtMatch | src/toast.ts:227-230 | the i-th of n toasts returned by the query has exactly n - 1 - i newer toasts at its corner |
| Layout.RepositionedAt | src/toast.ts:227-231 | the i-th of n toasts at the corner gets offset (h + 10)(n - 1 - i) and nothing else about it changes |
| Layout.RepositionedNewestAtCorner | src/toast.ts:227-231 | the newest toast at the corner sits at the corner edge |
| Layout.RepositionedLast | src/toast.ts:227-231 | a toast appended last at the corner sits at the corner edge |
| Layout.RepositionedIdempotent | src/toast.ts:222-233 | restacking an already restacked page changes nothing |
| Layout.RepositionedFromParts | src/toast.ts:227-232 | a layout that agrees with the restacked one at every toast of the corner, and with the page elsewhere, is the restacked layout |
| Layout.RepositionedIsStackedWhenUniform | src/toast.ts:229-231 | with equal heights at the corner, each offset is the sum of the newer toasts' heights and gaps |
| Layout.RepositionedDiffersFromStacked | src/toast.ts:229-231 | with an older 50px toast and a newer 20px one at the same corner, the older toast is lifted 60px, while the newer toast and its gap take only 30px |
| Scenarios.ShownToast | src/toast.ts:88-99 | a toast just shown on an empty page is valid, as is the page; the page holds that toast's element alone; the toast holds the resolved options and has its first frame pending with a fresh timer |
| Scenarios.ShowOn | src/toast.ts:88-99 | showing a toast on a page appends its element and restacks its corner |
| Scenarios.HoverIsNotCounted | src/toast.ts:178-186 | after 2000 ms, of which 1000 ms were spent hovering, 2000 of 3000 ms remain |
| Scenarios.FocusHoldsThePause | src/toast.ts:183-196 | leaving while the close button has focus keeps the toast paused; the blur that follows resumes it with a new frame |
| Scenarios.HoverIgnoredWithoutPauseOnHover | src/toast.ts:178 | with `pauseOnHover` off, hovering leaves the timer running |
| Scenarios.PauseBeforeFirstFrame | src/toast.ts:126-131 | a 1000 ms pause that ends before the first frame is still subtracted, so the first frame reports 4000 of 3000 ms remaining |
| Scenarios.ExpiryRemovesTheToast | src/toast.ts:140-144 | once the duration has run, the toast fades, and at the end of the fade it leaves the page with no frame pending |
| Scenarios.ResumeAfterRemoval | src/toast.ts:193-219 | a toast removed while its close button had focus has left the page, yet the blur that follows requests a new frame for it |
| Scenarios.TwoToastLayout | src/toast.ts:227-231 | two toasts of 50px and 20px at one corner: the older is at 60px, the newer at 0px |
| Scenarios.TwoToastsStack | src/toast.ts:222-233 | showing those two toasts one after the other on one page gives offsets 60px and 0px |

## Left out

- Markup is left out: the `innerHTML` text, the SVG icon and the class names. `Rendered` records only the heading, the body and which parts exist.
- The time bar's width is left out. It is a floating-point percentage, and only whether the bar exists is modelled.
- Opacity is left out. The fade is a flag, and the end of the CSS transition is the `TransitionEnd` event.
- `makeDraggable` is left out. It only writes the element to the console; the `draggable` option is still resolved.
- Console output (`console.count`, `console.error`) is left out.
- The `try`/`catch` around `showToast` is left out. No modelled step throws.
- `clientHeight` is not computed from the layout. It is the `height` parameter of `ShowToast`, fixed for each toast.
- The page's other children are not recorded. `insertBefore(..., document.body.lastChild)` is modelled as appending after the toasts already shown, which assumes the body's last child is not a toast.
- Numbers are whole milliseconds. Timestamps and the `duration` option are integers, not doubles: fractional durations, and NaN and Infinity, are not modelled. With a NaN duration the source would remove the toast at its first frame (`Math.max(0, NaN) > 0` is false). With an Infinity duration it would never expire. All events share one clock, and its values never decrease from one event to the next.
- Toast.PalmToast.ShowToast: requires that the toast has not been shown yet. A second call runs `beginTimer` again with new closure variables. The two timer loops would then share the fields `requestAnimationID` and `isPaused` (src/toast.ts:141, 150, 165, 172). The first element would also stay on the page for good, since `toastElement` now names the second one (src/toast.ts:90, 209, 213). None of this is modelled.
- Every event that takes a clock value requires it to be above 0, and the page hands out frame handles from 1 upwards. The source's truthiness tests (`!startTime`, `if (this.requestAnimationID)`, `if (pausedStartTime)`) then coincide with "defined", which is how they are modelled.
- Listeners that are not attached are modelled as events that change nothing: hover without `pauseOnHover`, focus without a close button.
- `src/main.ts` is not part of this model.
