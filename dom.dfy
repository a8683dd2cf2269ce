/** The part of the browser page the toasts touch: the toast elements in document order, the
    element identities the page hands out, and the handles of animation-frame requests.
    Only toast elements are recorded; the page's other children are not part of this model. */
module Dom {
  import opened Options
  import opened Layout

  /** No two toast records in `s` are the same element. */
  predicate DistinctIds(s: seq<ToastNode>) {
    forall j, k :: 0 <= j < k < |s| ==> s[j].id != s[k].id
  }

  /** `s` after the element `id` is removed from the page (`element.remove()`). */
  function Detached(s: seq<ToastNode>, id: nat): (r: seq<ToastNode>)
    ensures |r| <= |s|
  {
    if s == [] then []
    else Detached(s[..|s| - 1], id) + (if s[|s| - 1].id == id then [] else [s[|s| - 1]])
  }

  /** Exactly the records of other elements remain. */
  lemma {:induction false} DetachedMembers(s: seq<ToastNode>, id: nat)
    ensures forall t :: t in Detached(s, id) <==> t in s && t.id != id
    decreases |s|
  {
    if s != [] {
      var init, x := s[..|s| - 1], s[|s| - 1];
      assert s == init + [x];
      DetachedMembers(init, id);
    }
  }

  lemma {:induction false} DetachedSnoc(s: seq<ToastNode>, x: ToastNode, id: nat)
    ensures Detached(s + [x], id) == Detached(s, id) + (if x.id == id then [] else [x])
  {
    assert (s + [x])[..|s|] == s;
  }

  /** Removing an element that is not on the page changes nothing. */
  lemma {:induction false} DetachedAbsent(s: seq<ToastNode>, id: nat)
    requires forall k :: 0 <= k < |s| ==> s[k].id != id
    ensures Detached(s, id) == s
    decreases |s|
  {
    if s != [] {
      var init := s[..|s| - 1];
      assert s == init + [s[|s| - 1]];
      DetachedAbsent(init, id);
    }
  }

  /** Removing the element at position `k` takes out that record alone and keeps the others in order. */
  lemma {:induction false} DetachedAt(s: seq<ToastNode>, k: nat)
    requires DistinctIds(s) && k < |s|
    ensures Detached(s, s[k].id) == s[..k] + s[k + 1..]
    decreases |s|
  {
    var id := s[k].id;
    var init, x := s[..|s| - 1], s[|s| - 1];
    DistinctInit(s);
    if k == |s| - 1 {
      DetachedAbsent(init, id);
      assert s[..k] + s[k + 1..] == init;
    } else {
      assert init[k] == s[k];
      DetachedAt(init, k);
      assert Detached(s, id) == init[..k] + init[k + 1..] + [x];
      assert s[k + 1..] == init[k + 1..] + [x];
    }
  }

  /** Without its last record, a sequence of distinct elements stays distinct, and no remaining
      record is the last one's element. */
  lemma {:induction false} DistinctInit(s: seq<ToastNode>)
    requires DistinctIds(s) && |s| > 0
    ensures DistinctIds(s[..|s| - 1])
    ensures forall j :: 0 <= j < |s| - 1 ==> s[j].id != s[|s| - 1].id
  {
  }

  /** Removing an element keeps the identities distinct. */
  lemma {:induction false} DetachedDistinct(s: seq<ToastNode>, id: nat)
    requires DistinctIds(s)
    ensures DistinctIds(Detached(s, id))
    decreases |s|
  {
    if s != [] {
      var init, x := s[..|s| - 1], s[|s| - 1];
      assert s == init + [x];
      DetachedSnoc(init, x, id);
      DetachedDistinct(init, id);
      DetachedMembers(init, id);
      var d := Detached(init, id);
      forall j | 0 <= j < |d|
        ensures d[j].id != x.id
      {
        assert d[j] in init;
      }
    }
  }

  class Document {
    /** The toast elements, in document order. */
    var nodes: array<ToastNode>
    /** The identity the next created element receives. */
    var nextId: nat
    /** The handle the next `requestAnimationFrame` returns; browsers never return 0. */
    var nextHandle: nat

    ghost predicate Valid()
      reads this, nodes
    {
      HandlesValid() && PageValid()
    }

    /** Animation-frame handles are never 0. */
    ghost predicate HandlesValid()
      reads this`nextHandle
    {
      nextHandle >= 1
    }

    /** Every toast on the page is a distinct element that `CreateElement` handed out. */
    ghost predicate PageValid()
      reads this`nodes, this`nextId, nodes
    {
      DistinctIds(nodes[..]) &&
      forall k :: 0 <= k < nodes.Length ==> nodes[k].id < nextId
    }

    /** The toasts on the page, oldest first. */
    ghost function Toasts(): seq<ToastNode>
      reads this, nodes
    {
      nodes[..]
    }

    constructor ()
      ensures Valid() && fresh(nodes)
      ensures Toasts() == []
    {
      nodes := new ToastNode[0];
      nextId := 0;
      nextHandle := 1;
    }

    /** `document.createElement`: a new element identity, distinct from every element on the page. */
    method CreateElement() returns (id: nat)
      requires Valid()
      modifies this`nextId
      ensures Valid()
      ensures id == old(nextId) && nextId == id + 1
      ensures forall k :: 0 <= k < nodes.Length ==> nodes[k].id != id
    {
      id := nextId;
      nextId := nextId + 1;
    }

    /** `document.body.insertBefore(toast, document.body.lastChild)`: the new toast comes after
        every toast already on the page. */
    method InsertBeforeLastChild(t: ToastNode)
      requires Valid()
      requires t.id < nextId
      requires forall k :: 0 <= k < nodes.Length ==> nodes[k].id != t.id
      modifies this`nodes
      ensures Valid() && fresh(nodes)
      ensures Toasts() == old(Toasts()) + [t]
    {
      var s := nodes[..] + [t];
      nodes := new ToastNode[|s|](k requires 0 <= k < |s| => s[k]);
      assert nodes[..] == s;
    }

    /** `element.remove()`: the element leaves the page; removing an absent element does nothing. */
    method RemoveElement(id: nat)
      requires Valid()
      modifies this`nodes
      ensures Valid() && fresh(nodes)
      ensures Toasts() == Detached(old(Toasts()), id)
    {
      var s := Detached(nodes[..], id);
      DetachedDistinct(nodes[..], id);
      DetachedMembers(nodes[..], id);
      nodes := new ToastNode[|s|](k requires 0 <= k < |s| => s[k]);
      assert nodes[..] == s;
      forall k | 0 <= k < nodes.Length
        ensures nodes[k].id < nextId
      {
        assert s[k] in old(nodes[..]);
      }
    }

    /** `requestAnimationFrame`: a fresh, non-zero handle. */
    method RequestAnimationFrame() returns (h: nat)
      requires HandlesValid()
      modifies this`nextHandle
      ensures HandlesValid()
      ensures h >= 1 && h == old(nextHandle) && nextHandle == h + 1
    {
      h := nextHandle;
      nextHandle := nextHandle + 1;
    }
  }
}
