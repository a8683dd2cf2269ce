/** Concrete event sequences on a fresh page, with the outcomes the timer and layout rules give. */
module Scenarios {
  import opened Options
  import opened Layout
  import opened Dom
  import opened Toast

  /** A toast with every option left at its default. */
  function Defaults(text: string): ToastOptions {
    ToastOptions(None, text, None, None, None, None, None, None, None)
  }

  /** A toast with options `o`, just shown on an empty page: its first frame is pending. */
  method ShownToast(o: ToastOptions) returns (t: PalmToast)
    ensures fresh(t) && fresh(t.doc)
    ensures t.Valid() && t.doc.Valid() && t.Settings() == Resolve(o)
    ensures |t.doc.Toasts()| == 1 && t.toastElement == Some(t.doc.Toasts()[0].id)
    ensures t.closeButton == t.dissmissable
    ensures t.pendingFrame.Some? && t.startTime.None? && t.pausedStartTime.None? && t.pausedDuration == 0
    ensures !t.isPaused && t.clock == 0
  {
    var doc := new Document();
    t := new PalmToast(o, doc);
    t.ShowToast(40);
  }

  /** A one-second hover is left out of the elapsed time: two seconds after the first frame,
      with one second of it spent hovering, two of the three seconds remain. */
  method HoverIsNotCounted() returns (remaining: int)
    ensures remaining == 2000
  {
    var t := ShownToast(Defaults("Saved"));
    remaining := t.AnimationFrame(16);
    t.MouseEnter(1000);
    t.MouseLeave(2000);
    remaining := t.AnimationFrame(2016);
  }

  /** Leaving the toast while its close button has focus keeps the timer paused; the blur that
      follows resumes it with a new frame. */
  method FocusHoldsThePause() returns (pausedAfterLeave: bool, pausedAfterBlur: bool, frame: Option<nat>)
    ensures pausedAfterLeave && !pausedAfterBlur && frame.Some?
  {
    var t := ShownToast(Defaults("Saved"));
    t.MouseEnter(100);
    assert t.pausedStartTime == Some(100);
    t.Focus(150);
    assert t.isFocusPaused && t.pausedStartTime == Some(100);
    t.MouseLeave(200);
    assert t.pausedStartTime == Some(100);
    pausedAfterLeave := t.isPaused;
    t.Blur(300);
    pausedAfterBlur := t.isPaused;
    frame := t.pendingFrame;
  }

  /** With hovering switched off, hover events leave the timer running. */
  method HoverIgnoredWithoutPauseOnHover() returns (paused: bool, frame: Option<nat>)
    ensures !paused && frame.Some?
  {
    var t := ShownToast(ToastOptions(None, "Saved", None, None, None, None, None, None, Some(false)));
    var _ := t.AnimationFrame(16);
    t.MouseEnter(100);
    paused := t.isPaused;
    frame := t.pendingFrame;
  }

  /** A pause that ends before the first frame is still subtracted from the elapsed time, so the
      first frame reports more than the whole duration remaining. */
  method PauseBeforeFirstFrame() returns (remaining: int)
    ensures remaining == 4000
  {
    var t := ShownToast(Defaults("Saved"));
    t.MouseEnter(5);
    t.MouseLeave(1005);
    remaining := t.AnimationFrame(1010);
  }

  /** When the duration has run, the toast fades, and at the end of the fade it leaves the page
      with no frame pending. */
  method ExpiryRemovesTheToast() returns (remaining: int, left: nat, frame: Option<nat>)
    ensures remaining == 0 && left == 0 && frame.None?
  {
    var t := ShownToast(Defaults("Saved"));
    remaining := t.AnimationFrame(16);
    remaining := t.AnimationFrame(3016);
    ghost var s := t.doc.Toasts();
    DetachedAt(s, 0);
    t.TransitionEnd();
    left := t.doc.nodes.Length;
    frame := t.pendingFrame;
  }

  /** Removal cancels the frame but keeps the listeners and the recorded pause: a toast removed
      while its close button had focus restarts its frame loop on the blur that follows, although
      its element has left the page. */
  method ResumeAfterRemoval() returns (left: nat, frame: Option<nat>)
    ensures left == 0 && frame.Some?
  {
    var t := ShownToast(Defaults("Saved"));
    t.Focus(100);
    t.CloseClick();
    ghost var s := t.doc.Toasts();
    DetachedAt(s, 0);
    t.TransitionEnd();
    t.Blur(200);
    left := t.doc.nodes.Length;
    frame := t.pendingFrame;
  }

  /** A new toast with options `o` and rendered height `height`, shown on the page `doc`. */
  method ShowOn(doc: Document, o: ToastOptions, height: nat)
    requires doc.Valid()
    modifies doc`nodes, doc`nextId, doc`nextHandle
    ensures doc.Valid()
    ensures doc.Toasts() ==
      Repositioned(old(doc.Toasts()) + [ToastNode(old(doc.nextId), Resolve(o).toastType, Resolve(o).position, height, None, None)],
                   Resolve(o).position, Resolve(o).positionModifier)
  {
    var t := new PalmToast(o, doc);
    t.ShowToast(height);
  }

  /** The page after two default toasts, elements `i` and `j` of heights 50 and 20, are shown one
      after the other: the older one sits its own height plus the spacing above the newer one,
      which is at the edge. */
  lemma {:induction false} TwoToastLayout(i: nat, j: nat)
    ensures var first := ToastNode(i, Default, BottomRight, 50, None, None);
            var second := ToastNode(j, Default, BottomRight, 20, None, None);
            var s := Repositioned(Repositioned([first], BottomRight, Bottom) + [second], BottomRight, Bottom);
            |s| == 2 && s[0].bottom == Some(60) && s[1].bottom == Some(0)
  {
    var first := ToastNode(i, Default, BottomRight, 50, None, None);
    var second := ToastNode(j, Default, BottomRight, 20, None, None);
    var s := Repositioned([first], BottomRight, Bottom) + [second];
    assert s[1..] == [second] && s[2..] == [];
    assert CountAt([second], BottomRight) == 1 by {
      assert [second][..0] == [];
    }
  }

  /** Two toasts in the same corner: the older one, 50 pixels high, moves up by its own height
      plus the spacing, and the newer one sits at the edge. */
  method TwoToastsStack() returns (older: Option<nat>, newer: Option<nat>)
    ensures older == Some(60) && newer == Some(0)
  {
    var doc := new Document();
    ghost var i := doc.nextId;
    ShowOn(doc, Defaults("First"), 50);
    ghost var j := doc.nextId;
    ShowOn(doc, Defaults("Second"), 20);
    TwoToastLayout(i, j);
    older := doc.nodes[0].bottom;
    newer := doc.nodes[1].bottom;
  }
}
