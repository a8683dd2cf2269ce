/** One toast: its rendering, and the event-driven timer that pauses on hover and focus and
    removes the toast when its duration has run (the `PalmToast` class of src/toast.ts).
    Browser events are methods. Those whose handlers read the clock (a frame, mouseenter,
    mouseleave, focus, blur) take the clock value at which they happen; the click and the end of
    the fade take none. */
module Toast {
  import opened Options
  import opened Layout
  import opened Dom

  /** What `createToastElement` builds: the toast element with its attributes and its parts. */
  datatype Rendered = Rendered(
    node: ToastNode,
    heading: string,
    body: string,
    closeButton: bool,
    timeBar: bool)

  /** The toast element for configuration `c`, created as element `id` whose rendered height is `height`. */
  function RenderedToast(c: Config, id: nat, height: nat): (r: Rendered)
    ensures r.node.id == id && r.node.height == height
    ensures r.node.toastType == c.toastType && r.node.position == c.position
    ensures r.node.top.None? && r.node.bottom.None?
    ensures r.body == c.text
    ensures Resolved(c.heading, r.heading, "")
    ensures r.closeButton <==> c.dissmissable
    ensures r.timeBar <==> c.showTimer
  {
    Rendered(ToastNode(id, c.toastType, c.position, height, None, None),
             OrDefault(c.heading, ""), c.text, c.dissmissable, c.showTimer)
  }

  /** `Math.max(0, duration - elapsed)`: the time still to run, never negative. */
  function Remaining(duration: int, elapsed: int): (r: int)
    ensures r >= 0 && r >= duration - elapsed
    ensures r == 0 || r == duration - elapsed
    ensures r > 0 <==> elapsed < duration
  {
    if duration - elapsed > 0 then duration - elapsed else 0
  }

  /** The part of a toast's state that pausing and resuming act on. */
  datatype TimerView = TimerView(
    requestAnimationID: Option<nat>,
    pendingFrame: Option<nat>,
    pausedStartTime: Option<int>,
    pausedDuration: int,
    nextHandle: nat)

  class PalmToast {
    const text: string
    const heading: Option<string>
    const position: ToastPosition
    const toastType: ToastType
    const duration: int
    const dissmissable: bool
    const draggable: bool
    const showTimer: bool
    const pauseOnHover: bool
    const positionModifier: Side
    /** The page the toast is shown on. */
    const doc: Document

    /** The toast element, once `showToast` has built it; it is never cleared. */
    var toastElement: Option<nat>
    var timeBar: bool
    var closeButton: bool
    /** The last handle `requestAnimationFrame` returned, or none once cancelled. */
    var requestAnimationID: Option<nat>
    var isPaused: bool

    /** The animation frame the browser will deliver, if any. */
    var pendingFrame: Option<nat>
    /** The toast's opacity has been set to 0. */
    var faded: bool
    /** The `ontransitionend` handler of `removeToast` is installed. */
    var onTransitionEnd: bool

    // The locals of `beginTimer`, shared by its closures.
    var startTime: Option<int>
    var pausedStartTime: Option<int>
    var pausedDuration: int
    var elapsedTime: int
    var isHoverPaused: bool
    var isFocusPaused: bool

    /** The clock value of the latest event. */
    ghost var clock: int
    /** How long the timer has run since its first frame, not counting the time it was paused. */
    ghost var runTime: int
    /** The paused time recorded before the first frame fixed `startTime`. */
    ghost var prestartPause: int

    /** The resolved options. */
    function Settings(): Config {
      Config(heading, text, position, toastType, duration, dissmissable, draggable,
             showTimer, pauseOnHover, positionModifier)
    }

    ghost function Timer(): TimerView
      reads this, doc
    {
      TimerView(requestAnimationID, pendingFrame, pausedStartTime, pausedDuration, doc.nextHandle)
    }

    /** The length of the pause in progress. */
    ghost function CurrentPause(): int
      reads this`pausedStartTime, this`clock
    {
      if pausedStartTime.Some? then clock - pausedStartTime.value else 0
    }

    /** `mouseenter` and `mouseleave` listeners are attached. */
    predicate HoverListening()
      reads this`toastElement
    {
      toastElement.Some? && pauseOnHover
    }

    /** `focus` and `blur` listeners are attached to the close button. */
    predicate FocusListening()
      reads this`toastElement, this`closeButton
    {
      toastElement.Some? && pauseOnHover && closeButton
    }

    ghost predicate Valid()
      reads this
    {
      FramesValid() && BuiltValid() && PauseValid() && ClockValid()
    }

    /** At most one frame is pending, and `requestAnimationID` names it; none is requested before
        `showToast` or pending during a recorded pause. */
    ghost predicate FramesValid()
      reads this`pendingFrame, this`requestAnimationID, this`pausedStartTime, this`toastElement
    {
      (toastElement.None? ==> requestAnimationID.None?) &&
      (pendingFrame.Some? ==> requestAnimationID == pendingFrame) &&
      (pausedStartTime.Some? ==> pendingFrame.None? && requestAnimationID.None?)
    }

    /** Nothing is built or running before `showToast`; afterwards the parts follow the options. */
    ghost predicate BuiltValid()
      reads this`toastElement, this`closeButton, this`timeBar, this`faded, this`onTransitionEnd
    {
      (toastElement.None? ==> !closeButton && !timeBar && !faded) &&
      (toastElement.Some? ==> closeButton == dissmissable && timeBar == showTimer) &&
      (onTransitionEnd ==> faded)
    }

    /** The toast is paused exactly while hover or focus holds it, and only through attached listeners. */
    ghost predicate PauseValid()
      reads this`isPaused, this`isHoverPaused, this`isFocusPaused, this`toastElement, this`closeButton,
            this`pausedStartTime
    {
      (isPaused <==> isHoverPaused || isFocusPaused) &&
      (isHoverPaused ==> HoverListening()) &&
      (isFocusPaused ==> FocusListening()) &&
      (pausedStartTime.Some? ==> isPaused)
    }

    /** The elapsed time the timer computes is the run time, less any pause recorded before the first frame. */
    ghost predicate ClockValid()
      reads this`runTime, this`prestartPause, this`pausedDuration, this`pausedStartTime, this`clock,
            this`startTime
    {
      0 <= runTime && 0 <= prestartPause <= pausedDuration &&
      (pausedStartTime.Some? ==> 0 < pausedStartTime.value <= clock) &&
      (startTime.None? ==> runTime == 0 && prestartPause == pausedDuration) &&
      (startTime.Some? ==>
         0 < startTime.value <= clock &&
         clock - startTime.value - pausedDuration - CurrentPause() == runTime - prestartPause)
    }

    /** The timer after `pauseTimer` ran from state `t` at time `now`. */
    ghost predicate PausedFrom(t: TimerView, now: int)
      reads this, doc
    {
      requestAnimationID.None? && pendingFrame.None? &&
      pausedStartTime == (if t.requestAnimationID.Some? then Some(now) else t.pausedStartTime) &&
      pausedDuration == t.pausedDuration && doc.nextHandle == t.nextHandle
    }

    /** The timer after `resumeTimer` acted on a recorded pause in state `t` at time `now`. */
    ghost predicate ResumedFrom(t: TimerView, now: int)
      requires t.pausedStartTime.Some?
      reads this, doc
    {
      pausedDuration == t.pausedDuration + (now - t.pausedStartTime.value) &&
      pausedStartTime.None? &&
      requestAnimationID == Some(t.nextHandle) && pendingFrame == requestAnimationID &&
      doc.nextHandle == t.nextHandle + 1
    }

    /** The options resolved once, at construction. */
    constructor (options: ToastOptions, doc: Document)
      ensures Settings() == Resolve(options)
      ensures this.doc == doc
      ensures Valid()
      ensures toastElement.None? && !isPaused && requestAnimationID.None? && clock == 0
    {
      var c := Resolve(options);
      text := c.text;
      heading := c.heading;
      position := c.position;
      toastType := c.toastType;
      duration := c.duration;
      dissmissable := c.dissmissable;
      draggable := c.draggable;
      showTimer := c.showTimer;
      pauseOnHover := c.pauseOnHover;
      positionModifier := c.positionModifier;
      this.doc := doc;
      toastElement := None;
      timeBar := false;
      closeButton := false;
      requestAnimationID := None;
      isPaused := false;
      pendingFrame := None;
      faded := false;
      onTransitionEnd := false;
      startTime := None;
      pausedStartTime := None;
      pausedDuration := 0;
      elapsedTime := 0;
      isHoverPaused := false;
      isFocusPaused := false;
      clock := 0;
      runTime := 0;
      prestartPause := 0;
    }

    /** Time passes up to `now`: the run time grows while the timer is started and not paused. */
    ghost method Observe(now: int)
      requires Valid() && clock <= now
      modifies this`clock, this`runTime
      ensures Valid() && clock == now
      ensures runTime == old(runTime) + (if startTime.Some? && pausedStartTime.None? then now - old(clock) else 0)
    {
      if startTime.Some? && pausedStartTime.None? {
        runTime := runTime + (now - clock);
      }
      clock := now;
    }

    /** `this.requestAnimationID = requestAnimationFrame(updateTimerLoop)`. */
    method RequestTimerFrame()
      requires doc.HandlesValid() && pendingFrame.None?
      modifies this`requestAnimationID, this`pendingFrame, doc`nextHandle
      ensures doc.HandlesValid()
      ensures requestAnimationID == Some(old(doc.nextHandle)) && pendingFrame == requestAnimationID
      ensures doc.nextHandle == old(doc.nextHandle) + 1
    {
      var h := doc.RequestAnimationFrame();
      requestAnimationID := Some(h);
      pendingFrame := Some(h);
    }

    /** `cancelAnimationFrame(h)`: the frame `h` is no longer delivered; other handles are ignored. */
    method CancelAnimationFrame(h: nat)
      modifies this`pendingFrame
      ensures pendingFrame == if old(pendingFrame) == Some(h) then None else old(pendingFrame)
    {
      if pendingFrame == Some(h) {
        pendingFrame := None;
      }
    }

    /** `showToast`: build the element, put it on the page after the other toasts, restack the
        toasts at its corner and start the timer. */
    method ShowToast(height: nat)
      requires Valid() && doc.Valid()
      requires toastElement.None?
      modifies this`toastElement, this`closeButton, this`timeBar, this`requestAnimationID,
               this`pendingFrame, this`startTime, this`pausedStartTime, this`pausedDuration,
               this`elapsedTime, this`isHoverPaused, this`isFocusPaused, this`runTime,
               this`prestartPause, doc`nodes, doc`nextId, doc`nextHandle
      ensures Valid() && doc.Valid()
      ensures toastElement == Some(old(doc.nextId))
      ensures doc.Toasts() == Repositioned(old(doc.Toasts()) + [RenderedToast(Settings(), old(doc.nextId), height).node],
                                           position, positionModifier)
      ensures OffsetOn(doc.Toasts()[|doc.Toasts()| - 1], positionModifier) == Some(0)
      ensures closeButton == dissmissable && timeBar == showTimer
      ensures requestAnimationID == Some(old(doc.nextHandle)) && pendingFrame == requestAnimationID
      ensures startTime.None? && pausedStartTime.None? && pausedDuration == 0 && !isPaused
    {
      var r := CreateToastElement(height);
      toastElement := Some(r.node.id);
      doc.InsertBeforeLastChild(r.node);
      ghost var s := doc.Toasts();
      RepositionToasts();
      RepositionedLast(s, position, positionModifier);
      BeginTimer();
    }

    /** `createToastElement`: a new element with this toast's attributes, and the close button
        and time bar the options ask for. */
    method CreateToastElement(height: nat) returns (r: Rendered)
      requires doc.Valid()
      modifies this`closeButton, this`timeBar, doc`nextId
      ensures doc.Valid()
      ensures r == RenderedToast(Settings(), old(doc.nextId), height)
      ensures r.node.id < doc.nextId
      ensures forall k :: 0 <= k < doc.nodes.Length ==> doc.nodes[k].id != r.node.id
      ensures closeButton == (dissmissable || old(closeButton))
      ensures timeBar == (showTimer || old(timeBar))
    {
      var id := doc.CreateElement();
      r := RenderedToast(Settings(), id, height);
      if dissmissable {
        closeButton := true;
      }
      if showTimer {
        timeBar := true;
      }
    }

    /** `repositionToasts`: restack the toasts at this toast's corner. */
    method RepositionToasts()
      requires doc.Valid()
      modifies doc.nodes
      ensures doc.Valid()
      ensures doc.Toasts() == Repositioned(old(doc.Toasts()), position, positionModifier)
    {
      ghost var s := doc.Toasts();
      Reposition(doc.nodes, position, positionModifier);
      assert forall k :: 0 <= k < doc.nodes.Length ==> SameElement(doc.nodes[..][k], s[k]);
    }

    /** `beginTimer`: fresh timer locals, listeners as the options say, and the first frame requested. */
    method BeginTimer()
      requires doc.HandlesValid()
      requires toastElement.Some? && BuiltValid()
      requires !isPaused && !isHoverPaused && !isFocusPaused
      requires pendingFrame.None? && requestAnimationID.None?
      modifies this`requestAnimationID, this`pendingFrame, this`startTime, this`pausedStartTime,
               this`pausedDuration, this`elapsedTime, this`isHoverPaused, this`isFocusPaused,
               this`runTime, this`prestartPause, doc`nextHandle
      ensures Valid() && doc.HandlesValid()
      ensures requestAnimationID == Some(old(doc.nextHandle)) && pendingFrame == requestAnimationID
      ensures startTime.None? && pausedStartTime.None? && pausedDuration == 0
    {
      ResetTimer();
      RequestTimerFrame();
    }

    /** The locals of `beginTimer` start afresh. */
    method ResetTimer()
      modifies this`startTime, this`pausedStartTime, this`pausedDuration, this`elapsedTime,
               this`isHoverPaused, this`isFocusPaused, this`runTime, this`prestartPause
      ensures startTime.None? && pausedStartTime.None? && pausedDuration == 0 && elapsedTime == 0
      ensures !isHoverPaused && !isFocusPaused && runTime == 0 && prestartPause == 0
    {
      startTime, pausedStartTime, pausedDuration, elapsedTime, isHoverPaused, isFocusPaused, runTime, prestartPause :=
        None, None, 0, 0, false, false, 0, 0;
    }

    /** `updateTimerLoop(ts)`: the browser delivers the pending frame at time `ts`. */
    method AnimationFrame(ts: int) returns (remaining: int)
      requires Valid() && doc.HandlesValid()
      requires pendingFrame.Some? && 0 < ts && clock <= ts
      modifies this`startTime, this`elapsedTime, this`requestAnimationID, this`pendingFrame,
               this`faded, this`onTransitionEnd, this`clock, this`runTime, doc`nextHandle
      ensures Valid() && doc.HandlesValid() && clock == ts
      ensures startTime == if old(startTime).None? then Some(ts) else old(startTime)
      ensures elapsedTime == ts - startTime.value - pausedDuration
      ensures elapsedTime == runTime - prestartPause
      ensures remaining == Remaining(duration, elapsedTime)
      ensures remaining > 0 ==>
        requestAnimationID == Some(old(doc.nextHandle)) && pendingFrame == requestAnimationID &&
        faded == old(faded) && onTransitionEnd == old(onTransitionEnd)
      ensures remaining == 0 ==>
        pendingFrame.None? && requestAnimationID == old(requestAnimationID) &&
        doc.nextHandle == old(doc.nextHandle) && faded && onTransitionEnd
    {
      MeasureFrame(ts);
      remaining := Remaining(duration, elapsedTime);
      if remaining > 0 {
        RequestTimerFrame();
      } else {
        RemoveToast();
      }
    }

    /** The first half of `updateTimerLoop`: the delivered frame is no longer pending, the first
        frame fixes `startTime`, and the elapsed time leaves out the paused time. */
    method MeasureFrame(ts: int)
      requires Valid()
      requires pendingFrame.Some? && 0 < ts && clock <= ts
      modifies this`startTime, this`elapsedTime, this`pendingFrame, this`clock, this`runTime
      ensures Valid() && clock == ts && pendingFrame.None?
      ensures startTime == if old(startTime).None? then Some(ts) else old(startTime)
      ensures elapsedTime == ts - startTime.value - pausedDuration
      ensures elapsedTime == runTime - prestartPause
    {
      Observe(ts);
      pendingFrame := None;
      if startTime.None? {
        startTime := Some(ts);
      }
      elapsedTime := ts - startTime.value - pausedDuration;
    }

    /** `pauseTimer`: a pending frame is cancelled and the pause start recorded. */
    method PauseTimer(now: int)
      requires pendingFrame.Some? ==> requestAnimationID == pendingFrame
      modifies this`requestAnimationID, this`pendingFrame, this`pausedStartTime
      ensures PausedFrom(old(Timer()), now)
    {
      if requestAnimationID.Some? {
        CancelAnimationFrame(requestAnimationID.value);
        requestAnimationID := None;
        pausedStartTime := Some(now);
      }
    }

    /** `resumeTimer`: a recorded pause is added to the paused time and one frame is requested. */
    method ResumeTimer(now: int)
      requires doc.HandlesValid()
      requires pausedStartTime.Some? ==> pendingFrame.None?
      modifies this`pausedDuration, this`pausedStartTime, this`requestAnimationID,
               this`pendingFrame, this`prestartPause, doc`nextHandle
      ensures doc.HandlesValid()
      ensures old(pausedStartTime).None? ==> Timer() == old(Timer()) && prestartPause == old(prestartPause)
      ensures old(pausedStartTime).Some? ==> ResumedFrom(old(Timer()), now)
      ensures old(pausedStartTime).Some? ==>
        prestartPause == if startTime.None? then pausedDuration else old(prestartPause)
    {
      if pausedStartTime.Some? {
        pausedDuration := pausedDuration + (now - pausedStartTime.value);
        pausedStartTime := None;
        if startTime.None? {
          prestartPause := pausedDuration;
        }
        RequestTimerFrame();
      }
    }

    /** `pause`: only the first of overlapping pauses stops the timer. */
    method Pause(now: int)
      requires pendingFrame.Some? ==> requestAnimationID == pendingFrame
      modifies this`isPaused, this`requestAnimationID, this`pendingFrame, this`pausedStartTime
      ensures isPaused
      ensures old(isPaused) ==> Timer() == old(Timer())
      ensures !old(isPaused) ==> PausedFrom(old(Timer()), now)
    {
      if !isPaused {
        isPaused := true;
        PauseTimer(now);
      }
    }

    /** `tryResume`: the timer resumes only once neither hover nor focus holds it. */
    method TryResume(now: int)
      requires doc.HandlesValid()
      requires pausedStartTime.Some? ==> pendingFrame.None?
      modifies this`isPaused, this`pausedDuration, this`pausedStartTime, this`requestAnimationID,
               this`pendingFrame, this`prestartPause, doc`nextHandle
      ensures doc.HandlesValid()
      ensures isPaused == (old(isPaused) && (isHoverPaused || isFocusPaused))
      ensures !(old(isPaused) && !isPaused && old(pausedStartTime).Some?) ==>
        Timer() == old(Timer()) && prestartPause == old(prestartPause)
      ensures old(isPaused) && !isPaused && old(pausedStartTime).Some? ==>
        ResumedFrom(old(Timer()), now) &&
        prestartPause == if startTime.None? then pausedDuration else old(prestartPause)
    {
      if !isHoverPaused && !isFocusPaused && isPaused {
        isPaused := false;
        ResumeTimer(now);
      }
    }

    /** The pointer enters the toast. */
    method MouseEnter(now: int)
      requires Valid() && 0 < now && clock <= now
      modifies this`isHoverPaused, this`isPaused, this`requestAnimationID, this`pendingFrame,
               this`pausedStartTime, this`clock, this`runTime
      ensures Valid() && clock == now
      ensures !HoverListening() ==> Timer() == old(Timer()) && isHoverPaused == old(isHoverPaused) && isPaused == old(isPaused)
      ensures HoverListening() ==> isHoverPaused && isPaused
      ensures HoverListening() && old(isPaused) ==> Timer() == old(Timer())
      ensures HoverListening() && !old(isPaused) ==> PausedFrom(old(Timer()), now)
    {
      Observe(now);
      if HoverListening() {
        isHoverPaused := true;
        Pause(now);
      }
    }

    /** The pointer leaves the toast. */
    method MouseLeave(now: int)
      requires Valid() && doc.HandlesValid() && 0 < now && clock <= now
      modifies this`isHoverPaused, this`isPaused, this`pausedDuration, this`pausedStartTime,
               this`requestAnimationID, this`pendingFrame, this`prestartPause, this`clock,
               this`runTime, doc`nextHandle
      ensures Valid() && doc.HandlesValid() && clock == now
      ensures pausedDuration >= old(pausedDuration)
      ensures !HoverListening() ==> Timer() == old(Timer()) && isHoverPaused == old(isHoverPaused) && isPaused == old(isPaused)
      ensures HoverListening() ==> !isHoverPaused && (isPaused <==> old(isPaused) && isFocusPaused)
      ensures !(HoverListening() && old(isPaused) && !isFocusPaused && old(pausedStartTime).Some?) ==>
        Timer() == old(Timer())
      ensures HoverListening() && old(isPaused) && !isFocusPaused && old(pausedStartTime).Some? ==>
        ResumedFrom(old(Timer()), now)
    {
      Observe(now);
      if HoverListening() {
        isHoverPaused := false;
        TryResume(now);
      }
    }

    /** The close button receives focus. */
    method Focus(now: int)
      requires Valid() && 0 < now && clock <= now
      modifies this`isFocusPaused, this`isPaused, this`requestAnimationID, this`pendingFrame,
               this`pausedStartTime, this`clock, this`runTime
      ensures Valid() && clock == now
      ensures !FocusListening() ==> Timer() == old(Timer()) && isFocusPaused == old(isFocusPaused) && isPaused == old(isPaused)
      ensures FocusListening() ==> isFocusPaused && isPaused
      ensures FocusListening() && old(isPaused) ==> Timer() == old(Timer())
      ensures FocusListening() && !old(isPaused) ==> PausedFrom(old(Timer()), now)
    {
      Observe(now);
      if FocusListening() {
        isFocusPaused := true;
        Pause(now);
      }
    }

    /** The close button loses focus. */
    method Blur(now: int)
      requires Valid() && doc.HandlesValid() && 0 < now && clock <= now
      modifies this`isFocusPaused, this`isPaused, this`pausedDuration, this`pausedStartTime,
               this`requestAnimationID, this`pendingFrame, this`prestartPause, this`clock,
               this`runTime, doc`nextHandle
      ensures Valid() && doc.HandlesValid() && clock == now
      ensures pausedDuration >= old(pausedDuration)
      ensures !FocusListening() ==> Timer() == old(Timer()) && isFocusPaused == old(isFocusPaused) && isPaused == old(isPaused)
      ensures FocusListening() ==> !isFocusPaused && (isPaused <==> old(isPaused) && isHoverPaused)
      ensures !(FocusListening() && old(isPaused) && !isHoverPaused && old(pausedStartTime).Some?) ==>
        Timer() == old(Timer())
      ensures FocusListening() && old(isPaused) && !isHoverPaused && old(pausedStartTime).Some? ==>
        ResumedFrom(old(Timer()), now)
    {
      Observe(now);
      if FocusListening() {
        isFocusPaused := false;
        TryResume(now);
      }
    }

    /** The close button is clicked. */
    method CloseClick()
      requires Valid()
      modifies this`faded, this`onTransitionEnd
      ensures Valid()
      ensures closeButton ==> faded && onTransitionEnd
      ensures !closeButton ==> faded == old(faded) && onTransitionEnd == old(onTransitionEnd)
    {
      if closeButton {
        RemoveToast();
      }
    }

    /** `removeToast`: fade the element out and install the handler that removes it. */
    method RemoveToast()
      modifies this`faded, this`onTransitionEnd
      ensures toastElement.None? ==> faded == old(faded) && onTransitionEnd == old(onTransitionEnd)
      ensures toastElement.Some? ==> faded && onTransitionEnd
    {
      if toastElement.None? {
        return;
      }
      faded := true;
      onTransitionEnd := true;
    }

    /** The fade-out ends: once `removeToast` installed its handler, the element leaves the page,
        the remaining toasts at its corner close up, and the timer's frame is cancelled. */
    method TransitionEnd()
      requires Valid() && doc.Valid()
      modifies this`requestAnimationID, this`pendingFrame, doc`nodes
      ensures Valid() && doc.Valid()
      ensures !old(onTransitionEnd) ==> doc.Toasts() == old(doc.Toasts()) && Timer() == old(Timer())
      ensures old(onTransitionEnd) ==>
        doc.Toasts() == Repositioned(Detached(old(doc.Toasts()), toastElement.value), position, positionModifier)
      ensures old(onTransitionEnd) ==> requestAnimationID.None? && pendingFrame.None?
    {
      if onTransitionEnd {
        doc.RemoveElement(toastElement.value);
        RepositionToasts();
        if requestAnimationID.Some? {
          CancelAnimationFrame(requestAnimationID.value);
          requestAnimationID := None;
        }
      }
    }
  }
}
