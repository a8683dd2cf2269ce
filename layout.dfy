/** Stacking of the toasts that share a screen corner (`repositionToasts` in src/toast.ts).
    The page is a sequence of toast records in document order; the newest toast is the last one. */
module Layout {
  import opened Options

  /** The gap, in pixels, between two stacked toasts (`toastSpacing`). */
  const ToastSpacing: nat := 10

  /** One toast element on the page: its identity, its `toast-type` and `toast-position`
      attributes, its rendered height, and the `top` / `bottom` offsets its style holds. */
  datatype ToastNode = ToastNode(
    id: nat,
    toastType: ToastType,
    position: ToastPosition,
    height: nat,
    top: Option<nat>,
    bottom: Option<nat>)

  /** The offset `repositionToasts` gives a toast of height `height` with `newer` newer toasts at its
      corner: `newer` times its own height plus one gap (see OffsetForIsProduct). Written as repeated
      addition so that proofs about layouts stay in linear arithmetic. */
  function OffsetFor(height: nat, newer: nat): (r: nat)
    ensures r == 0 <==> newer == 0
    ensures newer > 0 ==> r >= height + ToastSpacing
  {
    if newer == 0 then 0 else OffsetFor(height, newer - 1) + height + ToastSpacing
  }

  /** The offset is (height + spacing) * newer, which the source computes as height * newer + spacing * newer. */
  lemma {:induction false} OffsetForIsProduct(height: nat, newer: nat)
    ensures OffsetFor(height, newer) == (height + ToastSpacing) * newer
    ensures OffsetFor(height, newer) == height * newer + ToastSpacing * newer
  {
    if newer > 0 {
      OffsetForIsProduct(height, newer - 1);
    }
  }

  /** `a` and `b` are the same element with the same attributes and height (their offsets may differ). */
  predicate SameElement(a: ToastNode, b: ToastNode) {
    a.id == b.id && a.toastType == b.toastType && a.position == b.position && a.height == b.height
  }

  /** The side opposite to `side`. */
  function Opposite(side: Side): Side {
    if side == Top then Bottom else Top
  }

  /** The offset `t` holds on `side`. */
  function OffsetOn(t: ToastNode, side: Side): Option<nat> {
    if side == Top then t.top else t.bottom
  }

  /** `t` with `side` set to `v` pixels (`style[positionModifier] = v + "px"`). */
  function WithOffset(t: ToastNode, side: Side, v: nat): (r: ToastNode)
    ensures OffsetOn(r, side) == Some(v)
    ensures SameElement(r, t)
    ensures OffsetOn(r, Opposite(side)) == OffsetOn(t, Opposite(side))
  {
    if side == Top then t.(top := Some(v)) else t.(bottom := Some(v))
  }

  /** Number of toasts in `s` anchored at corner `p`. */
  function CountAt(s: seq<ToastNode>, p: ToastPosition): nat {
    if s == [] then 0
    else CountAt(s[..|s| - 1], p) + (if s[|s| - 1].position == p then 1 else 0)
  }

  /** The toasts at corner `p` as a query selector returns them: their indices, in document order. */
  function Matching(s: seq<ToastNode>, p: ToastPosition): (idx: seq<nat>)
    ensures |idx| == CountAt(s, p)
  {
    if s == [] then []
    else Matching(s[..|s| - 1], p) + (if s[|s| - 1].position == p then [|s| - 1] else [])
  }

  /** The query returns exactly the toasts at corner `p`, each once, in document order. */
  lemma {:induction false} MatchingExact(s: seq<ToastNode>, p: ToastPosition)
    ensures forall j :: 0 <= j < |Matching(s, p)| ==> Matching(s, p)[j] < |s| && s[Matching(s, p)[j]].position == p
    ensures forall j, k :: 0 <= j < k < |Matching(s, p)| ==> Matching(s, p)[j] < Matching(s, p)[k]
    ensures forall k :: 0 <= k < |s| && s[k].position == p ==> k in Matching(s, p)
    decreases |s|
  {
    if s != [] {
      var init := s[..|s| - 1];
      MatchingExact(init, p);
      forall k | 0 <= k < |init|
        ensures init[k] == s[k]
      {
      }
    }
  }

  /** The toasts the query returns lie at corner `p`. */
  lemma {:induction false} MatchingAtCorner(s: seq<ToastNode>, p: ToastPosition)
    ensures forall j :: 0 <= j < |Matching(s, p)| ==> Matching(s, p)[j] < |s| && s[Matching(s, p)[j]].position == p
  {
    MatchingExact(s, p);
  }

  /** The query returns each toast once. */
  lemma {:induction false} MatchingDistinct(s: seq<ToastNode>, p: ToastPosition, i: nat)
    requires i < |Matching(s, p)|
    ensures forall j :: 0 <= j < |Matching(s, p)| && j != i ==> Matching(s, p)[j] != Matching(s, p)[i]
  {
    MatchingExact(s, p);
  }

  /** Number of toasts at corner `p` that come after the `k`-th one (the newer ones). */
  function Later(s: seq<ToastNode>, k: nat, p: ToastPosition): nat
    requires k < |s|
  {
    CountAt(s[k + 1..], p)
  }

  /** The layout `repositionToasts` produces for corner `p`: every toast at that corner gets the
      offset (own height + spacing) * (number of newer toasts at that corner) on `side`; toasts at
      other corners keep their records. */
  function Repositioned(s: seq<ToastNode>, p: ToastPosition, side: Side): (r: seq<ToastNode>)
    ensures |r| == |s|
    ensures forall k {:trigger r[k]} :: 0 <= k < |s| && s[k].position != p ==> r[k] == s[k]
    ensures forall k {:trigger r[k]} :: 0 <= k < |s| && s[k].position == p ==>
              OffsetOn(r[k], side) == Some(OffsetFor(s[k].height, Later(s, k, p))) &&
              OffsetOn(r[k], Opposite(side)) == OffsetOn(s[k], Opposite(side))
    ensures forall k {:trigger r[k]} :: 0 <= k < |s| ==> SameElement(r[k], s[k])
  {
    seq(|s|, k requires 0 <= k < |s| =>
      if s[k].position == p then WithOffset(s[k], side, OffsetFor(s[k].height, Later(s, k, p)))
      else s[k])
  }

  lemma {:induction false} CountAtSnoc(s: seq<ToastNode>, x: ToastNode, p: ToastPosition)
    ensures CountAt(s + [x], p) == CountAt(s, p) + (if x.position == p then 1 else 0)
  {
    assert (s + [x])[..|s|] == s;
  }

  lemma {:induction false} MatchingSnoc(s: seq<ToastNode>, x: ToastNode, p: ToastPosition)
    ensures Matching(s + [x], p) == Matching(s, p) + (if x.position == p then [|s|] else [])
  {
    assert (s + [x])[..|s|] == s;
  }

  /** Appending a toast adds one newer toast to every older one at its corner. */
  lemma {:induction false} LaterSnoc(s: seq<ToastNode>, x: ToastNode, k: nat, p: ToastPosition)
    requires k < |s|
    ensures Later(s + [x], k, p) == Later(s, k, p) + (if x.position == p then 1 else 0)
  {
    assert (s + [x])[k + 1..] == s[k + 1..] + [x];
    CountAtSnoc(s[k + 1..], x, p);
  }

  /** The `i`-th of the `n` toasts at corner `p` has exactly `n - 1 - i` newer toasts at that corner. */
  lemma {:induction false} LaterAtMatch(s: seq<ToastNode>, p: ToastPosition, i: nat)
    requires i < CountAt(s, p)
    ensures Matching(s, p)[i] < |s| && s[Matching(s, p)[i]].position == p
    ensures Later(s, Matching(s, p)[i], p) == CountAt(s, p) - 1 - i
    decreases |s|
  {
    var init, x := s[..|s| - 1], s[|s| - 1];
    assert s == init + [x];
    MatchingSnoc(init, x, p);
    CountAtSnoc(init, x, p);
    if i < CountAt(init, p) {
      LaterAtMatch(init, p, i);
      var m := Matching(init, p)[i];
      assert Matching(s, p)[i] == m;
      LaterSnoc(init, x, m, p);
    } else {
      assert Matching(s, p)[i] == |init|;
      assert s[|init| + 1..] == [];
    }
  }

  /** The `i`-th of the `n` toasts at corner `p` is moved (h_i + 10) * (n - 1 - i) pixels away from
      the corner, and nothing else about it changes. */
  lemma {:induction false} RepositionedAt(s: seq<ToastNode>, p: ToastPosition, side: Side, i: nat)
    requires i < CountAt(s, p)
    ensures Matching(s, p)[i] < |s|
    ensures var m := Matching(s, p)[i];
            Repositioned(s, p, side)[m] == WithOffset(s[m], side, OffsetFor(s[m].height, CountAt(s, p) - 1 - i))
  {
    LaterAtMatch(s, p, i);
  }

  /** The newest toast at the corner sits at the corner itself. */
  lemma {:induction false} RepositionedNewestAtCorner(s: seq<ToastNode>, p: ToastPosition, side: Side)
    requires CountAt(s, p) > 0
    ensures Matching(s, p)[CountAt(s, p) - 1] < |s|
    ensures OffsetOn(Repositioned(s, p, side)[Matching(s, p)[CountAt(s, p) - 1]], side) == Some(0)
  {
    var n := CountAt(s, p);
    LaterAtMatch(s, p, n - 1);
    var m := Matching(s, p)[n - 1];
    assert Later(s, m, p) == 0;
  }

  /** The toast added last sits at the corner itself when it belongs to that corner. */
  lemma {:induction false} RepositionedLast(s: seq<ToastNode>, p: ToastPosition, side: Side)
    requires |s| > 0 && s[|s| - 1].position == p
    ensures OffsetOn(Repositioned(s, p, side)[|s| - 1], side) == Some(0)
  {
    assert s[|s| - 1 + 1..] == [];
  }

  /** The number of toasts at a corner depends on the corners alone. */
  lemma {:induction false} CountAtSamePositions(s: seq<ToastNode>, t: seq<ToastNode>, p: ToastPosition)
    requires |s| == |t|
    requires forall k :: 0 <= k < |s| ==> s[k].position == t[k].position
    ensures CountAt(s, p) == CountAt(t, p)
    decreases |s|
  {
    if s != [] {
      CountAtSamePositions(s[..|s| - 1], t[..|t| - 1], p);
    }
  }

  /** Repositioning twice gives the same layout as repositioning once. */
  lemma {:induction false} RepositionedIdempotent(s: seq<ToastNode>, p: ToastPosition, side: Side)
    ensures Repositioned(Repositioned(s, p, side), p, side) == Repositioned(s, p, side)
  {
    var r := Repositioned(s, p, side);
    var rr := Repositioned(r, p, side);
    forall k | 0 <= k < |s|
      ensures rr[k] == r[k]
    {
      if s[k].position == p {
        CountAtSamePositions(r[k + 1..], s[k + 1..], p);
      }
    }
  }

  /** Sum of (height + spacing) over the toasts in `s` at corner `p`. */
  function HeightsAt(s: seq<ToastNode>, p: ToastPosition): nat {
    if s == [] then 0
    else HeightsAt(s[..|s| - 1], p) + (if s[|s| - 1].position == p then s[|s| - 1].height + ToastSpacing else 0)
  }

  /** A stacking reference: the `k`-th toast sits above all newer toasts at its corner and their gaps. */
  function StackedOffset(s: seq<ToastNode>, k: nat, p: ToastPosition): nat
    requires k < |s|
  {
    HeightsAt(s[k + 1..], p)
  }

  /** When every toast at corner `p` has height `h`, their stacked heights are (h + spacing) times their number. */
  lemma {:induction false} HeightsAtUniform(s: seq<ToastNode>, p: ToastPosition, h: nat)
    requires forall j :: 0 <= j < |s| && s[j].position == p ==> s[j].height == h
    ensures HeightsAt(s, p) == OffsetFor(h, CountAt(s, p))
    decreases |s|
  {
    if s != [] {
      HeightsAtUniform(s[..|s| - 1], p, h);
    }
  }

  /** With equal heights at the corner, the layout is the stacking reference. */
  lemma {:induction false} RepositionedIsStackedWhenUniform(s: seq<ToastNode>, p: ToastPosition, side: Side, k: nat)
    requires k < |s| && s[k].position == p
    requires forall j :: 0 <= j < |s| && s[j].position == p ==> s[j].height == s[k].height
    ensures OffsetOn(Repositioned(s, p, side)[k], side) == Some(StackedOffset(s, k, p))
  {
    HeightsAtUniform(s[k + 1..], p, s[k].height);
  }

  /** With unequal heights the two differ: an older 50px toast with a newer 20px one at its corner is lifted
      by 60px, although the newer toast and its gap take only 30px. */
  lemma {:induction false} RepositionedDiffersFromStacked()
    ensures var s := [ToastNode(0, Default, BottomRight, 50, None, None),
                      ToastNode(1, Default, BottomRight, 20, None, None)];
            OffsetOn(Repositioned(s, BottomRight, Bottom)[0], Bottom) == Some(60) &&
            StackedOffset(s, 0, BottomRight) == 30
  {
    var s := [ToastNode(0, Default, BottomRight, 50, None, None),
              ToastNode(1, Default, BottomRight, 20, None, None)];
    assert s[1..][..0] == [];
    assert Later(s, 0, BottomRight) == 1;
  }

  /** A layout that agrees with the repositioned one at every toast of corner `p`, and with the
      original everywhere else, is the repositioned layout. */
  lemma {:induction false} RepositionedFromParts(s: seq<ToastNode>, p: ToastPosition, side: Side, b: seq<ToastNode>)
    requires |b| == |s|
    requires forall j :: 0 <= j < |Matching(s, p)| ==>
               Matching(s, p)[j] < |s| && b[Matching(s, p)[j]] == Repositioned(s, p, side)[Matching(s, p)[j]]
    requires forall k :: 0 <= k < |s| && s[k].position != p ==> b[k] == s[k]
    ensures b == Repositioned(s, p, side)
  {
    var r := Repositioned(s, p, side);
    MatchingExact(s, p);
    forall k | 0 <= k < |s|
      ensures b[k] == r[k]
    {
      if s[k].position == p {
        var j :| 0 <= j < |Matching(s, p)| && Matching(s, p)[j] == k;
      }
    }
  }

  /** The pixel offset one iteration of `repositionToasts` computes: the toast's height times the
      number of newer toasts, plus the spacing times that number. */
  method StyleOffset(height: nat, newer: nat) returns (px: nat)
    ensures px == OffsetFor(height, newer)
  {
    var totalHeight := height * newer;
    var spacing := ToastSpacing * newer;
    OffsetForIsProduct(height, newer);
    px := totalHeight + spacing;
  }

  /** `repositionToasts`: walks the toasts at corner `p` from the newest to the oldest and writes
      each one's offset in place. */
  method Reposition(a: array<ToastNode>, p: ToastPosition, side: Side)
    modifies a
    ensures a[..] == Repositioned(old(a[..]), p, side)
  {
    ghost var s := a[..];
    ghost var target := Repositioned(s, p, side);
    var toasts := Matching(a[..], p);
    var n := |toasts|;
    MatchingAtCorner(s, p);
    for i := n downto 0
      invariant a.Length == |s| == |target|
      invariant forall j :: i <= j < n ==> a[toasts[j]] == target[toasts[j]]
      invariant forall j :: 0 <= j < i ==> a[toasts[j]] == s[toasts[j]]
      invariant forall k :: 0 <= k < a.Length && s[k].position != p ==> a[k] == s[k]
    {
      var k := toasts[i];
      MatchingDistinct(s, p, i);
      var toast := a[k];
      var offset := StyleOffset(toast.height, n - i - 1);
      RepositionedAt(s, p, side, i);
      a[k] := WithOffset(toast, side, offset);
    }
    RepositionedFromParts(s, p, side, a[..]);
  }
}
