/**
 * The tree of pointer event targets (`EventTargetImpl` in
 * src/scripts/events/create-pointer-events.ts): each target has an optional
 * area, a parent, an ordered list of children and one listener list per
 * custom pointer event type.
 *
 * The hit search `findTarget` is specified by the ghost function `Hit`. To
 * let it recurse, every target carries a ghost `rank` (larger than its
 * parent's) and a ghost registry `TargetTree` records every target created
 * under one root.
 */
module PointerTargets {
  import opened Wrappers

  /** The geometry of a target (`Measurements`); only tested through `Contains`. */
  type Area

  /** `measurementsInclude(area, x, y)`. */
  type Contains = (Area, real, real) -> bool

  /** The custom event types a target dispatches. */
  datatype EventType = PointerDown | PointerCancel | PointerUp

  /** A registered listener. `allowsCancel`: when it receives a pointerdown event it
      calls that event's `allowCancel()`. */
  datatype Listener = Listener(id: nat, allowsCancel: bool)

  /** Whether some listener in `ls` calls `allowCancel()`. */
  predicate AllowsCancel(ls: seq<Listener>) {
    exists j :: 0 <= j < |ls| && ls[j].allowsCancel
  }

  class EventTarget {
    const area: Option<Area>
    const parent: EventTarget?
    ghost const rank: nat
    var children: seq<EventTarget>
    var downListeners: seq<Listener>
    var cancelListeners: seq<Listener>
    var upListeners: seq<Listener>

    constructor (area: Option<Area>, parent: EventTarget?, ghost rank: nat)
      ensures this.area == area && this.parent == parent && this.rank == rank
      ensures children == [] && downListeners == [] && cancelListeners == [] && upListeners == []
    {
      this.area := area;
      this.parent := parent;
      this.rank := rank;
      children := [];
      downListeners := [];
      cancelListeners := [];
      upListeners := [];
    }

    /** `this.listeners[type]`. */
    function ListenersOf(t: EventType): seq<Listener>
      reads this
    {
      match t
      case PointerDown => downListeners
      case PointerCancel => cancelListeners
      case PointerUp => upListeners
    }

    /** `addEventListener(type, listener)`: the listener goes to the end of that type's
        list; the other lists and the children are untouched, so the tree stays valid. */
    method AddEventListener(t: EventType, l: Listener, ghost tree: TargetTree)
      requires tree.Valid() && this in tree.nodes
      modifies this
      ensures tree.Valid()
      ensures ListenersOf(t) == old(ListenersOf(t)) + [l]
      ensures forall u :: u != t ==> ListenersOf(u) == old(ListenersOf(u))
      ensures children == old(children)
    {
      match t
      case PointerDown => downListeners := downListeners + [l];
      case PointerCancel => cancelListeners := cancelListeners + [l];
      case PointerUp => upListeners := upListeners + [l];
    }

    /** `dispatchEvent(type, event)`: calls every listener of that type, in registration
        order, over a copy of the list taken first. `allowCancelCalled` reports whether a
        listener called `allowCancel()`, which only pointerdown events offer. */
    method DispatchEvent(t: EventType) returns (called: seq<Listener>, allowCancelCalled: bool)
      ensures called == ListenersOf(t)
      ensures allowCancelCalled <==> t == PointerDown && AllowsCancel(called)
    {
      var snapshot := ListenersOf(t);
      called := [];
      allowCancelCalled := false;
      for i := 0 to |snapshot|
        invariant called == snapshot[..i]
        invariant allowCancelCalled <==> t == PointerDown && AllowsCancel(called)
      {
        var listener := snapshot[i];
        if t == PointerDown && listener.allowsCancel {
          allowCancelCalled := true;
        }
        called := called + [listener];
      }
    }

    /** `addChildForArea(area)`: one new target, with that area and this target as
        parent, is appended to the children and registered in the tree. */
    method AddChildForArea(a: Area, ghost tree: TargetTree) returns (child: EventTarget)
      requires tree.Valid() && this in tree.nodes
      modifies this, tree
      ensures tree.Valid()
      ensures fresh(child) && child.area == Some(a) && child.parent == this
      ensures child.children == [] && child.ListenersOf(PointerDown) == []
      ensures child.ListenersOf(PointerCancel) == [] && child.ListenersOf(PointerUp) == []
      ensures children == old(children) + [child]
      ensures tree.nodes == old(tree.nodes) + {child}
      ensures downListeners == old(downListeners) && cancelListeners == old(cancelListeners)
      ensures upListeners == old(upListeners)
    {
      child := new EventTarget(Some(a), this, tree.next);
      DistinctSnoc(children, child);
      children := children + [child];
      tree.Register(child);
    }

    /** `findTarget(x, y)`: undefined when this target has an area that excludes the
        point; otherwise the first child, in order, whose search finds a target, or else
        this target itself. */
    method FindTarget(x: real, y: real, contains: Contains, ghost tree: TargetTree) returns (t: EventTarget?)
      requires tree.Valid() && this in tree.nodes
      ensures t == Hit(tree, this, x, y, contains)
      decreases tree.next - rank
    {
      if area.Some? && !contains(area.value, x, y) {
        return null;
      }
      for i := 0 to |children|
        invariant Hit(tree, this, x, y, contains) == FirstHit(tree, this, i, x, y, contains)
      {
        var inChild := children[i].FindTarget(x, y, contains, tree);
        if inChild != null {
          return inChild;
        }
      }
      return this;
    }

    /** `removeChild(child)`: nothing happens to a target that is not a child; otherwise
        exactly that child is taken out (see `Wrappers.RemovedExactly`) and the others
        keep their order. */
    method RemoveChild(child: EventTarget, ghost tree: TargetTree)
      requires tree.Valid() && this in tree.nodes
      modifies this
      ensures tree.Valid()
      ensures child !in old(children) ==> children == old(children)
      ensures child in old(children) ==> children == RemoveAt(old(children), IndexOf(old(children), child))
      ensures child !in children
      ensures ListenersOf(PointerDown) == old(ListenersOf(PointerDown))
      ensures ListenersOf(PointerCancel) == old(ListenersOf(PointerCancel))
      ensures ListenersOf(PointerUp) == old(ListenersOf(PointerUp))
    {
      var index := IndexOf(children, child);
      if index == -1 {
        return;
      }
      RemoveAtKeeps(children, index);
      children := RemoveAt(children, index);
    }

    /** `destroy()`: the children list is emptied and, when there is a parent, this
        target is removed from the parent's children. */
    method Destroy(ghost tree: TargetTree)
      requires tree.Valid() && this in tree.nodes
      modifies this, parent
      ensures tree.Valid()
      ensures children == []
      ensures parent != null ==> this !in parent.children
      ensures parent != null && this in old(parent.children) ==>
        parent.children == RemoveAt(old(parent.children), IndexOf(old(parent.children), this))
      ensures parent != null && this !in old(parent.children) ==> parent.children == old(parent.children)
      ensures forall t :: ListenersOf(t) == old(ListenersOf(t))
      ensures parent != null ==> forall t :: parent.ListenersOf(t) == old(parent.ListenersOf(t))
    {
      children := [];
      if parent != null {
        parent.RemoveChild(this, tree);
      }
    }
  }

  /** The targets created under one root. Ranks grow from parent to child and stay
      below `next`, so a search descends through finitely many targets. */
  class TargetTree {
    const root: EventTarget
    ghost var nodes: set<EventTarget>
    ghost var next: nat

    /** What holds of one registered target. */
    ghost predicate NodeOk(n: EventTarget)
      reads this, n
    {
      n.rank < next && Distinct(n.children) &&
      (forall c :: c in n.children ==> c in nodes && c.parent == n && n.rank < c.rank) &&
      (n.parent != null ==> n.parent in nodes && n.parent.rank < n.rank)
    }

    ghost predicate Valid()
      reads this, nodes
    {
      root in nodes && root.area.None? && root.parent == null &&
      forall n :: n in nodes ==> NodeOk(n)
    }

    /** `new EventTargetImpl(undefined, undefined)`: a root without area or parent. */
    constructor ()
      ensures Valid() && fresh(root) && nodes == {root}
      ensures root.children == [] && root.ListenersOf(PointerDown) == []
      ensures root.ListenersOf(PointerCancel) == [] && root.ListenersOf(PointerUp) == []
    {
      root := new EventTarget(None, null, 0);
      nodes := {root};
      next := 1;
    }

    /** Records a target just appended to the children of a registered one. */
    ghost method Register(c: EventTarget)
      requires c !in nodes && c.rank == next && c.children == []
      requires c.parent != null && c.parent in nodes && c in c.parent.children
      requires root in nodes && root.area.None? && root.parent == null
      requires forall n :: n in nodes && n != c.parent ==> NodeOk(n)
      requires c.parent.rank < next && Distinct(c.parent.children)
      requires forall d :: d in c.parent.children && d != c ==> d in nodes && d.parent == c.parent && c.parent.rank < d.rank
      requires c.parent.parent != null ==> c.parent.parent in nodes && c.parent.parent.rank < c.parent.rank
      modifies this
      ensures Valid() && nodes == old(nodes) + {c} && next == old(next) + 1
    {
      nodes := nodes + {c};
      next := next + 1;
    }
  }

  /** What `findTarget(x, y)` returns when called on `n`: null for undefined. */
  ghost function Hit(tree: TargetTree, n: EventTarget, x: real, y: real, contains: Contains): (r: EventTarget?)
    requires tree.Valid() && n in tree.nodes
    reads tree, tree.nodes
    ensures r == null <==> n.area.Some? && !contains(n.area.value, x, y)
    ensures r != null ==> r in tree.nodes && (r.area.Some? ==> contains(r.area.value, x, y))
    decreases tree.next - n.rank, 1, 0
  {
    if n.area.Some? && !contains(n.area.value, x, y) then null
    else FirstHit(tree, n, 0, x, y, contains)
  }

  /** The first target the children of `n` from index `i` on yield, or `n` itself. */
  ghost function FirstHit(tree: TargetTree, n: EventTarget, i: nat, x: real, y: real, contains: Contains): (r: EventTarget?)
    requires tree.Valid() && n in tree.nodes && i <= |n.children|
    reads tree, tree.nodes
    ensures r != null && r in tree.nodes
    ensures r != n ==> r.area.Some? ==> contains(r.area.value, x, y)
    decreases tree.next - n.rank, 0, |n.children| - i
  {
    if i == |n.children| then n
    else
      var inChild := Hit(tree, n.children[i], x, y, contains);
      if inChild != null then inChild else FirstHit(tree, n, i + 1, x, y, contains)
  }

  /** What the search from each child of `n` returns, in order. */
  ghost function ChildHits(tree: TargetTree, n: EventTarget, x: real, y: real, contains: Contains): (hs: seq<EventTarget?>)
    requires tree.Valid() && n in tree.nodes
    reads tree, tree.nodes
    ensures |hs| == |n.children|
    ensures forall j :: 0 <= j < |hs| ==> hs[j] == Hit(tree, n.children[j], x, y, contains)
  {
    var kids := n.children;
    seq(|kids|, j requires 0 <= j < |kids| && tree.Valid() && kids[j] in tree.nodes reads tree, tree.nodes =>
      Hit(tree, kids[j], x, y, contains))
  }

  /** The search of the children is first-match: either no child from `i` on yields a
      target and the result is `n`, or the result is what the first child that does
      yield one returns. */
  lemma {:induction false} FirstHitIsFirst(tree: TargetTree, n: EventTarget, i: nat, x: real, y: real, contains: Contains)
    requires tree.Valid() && n in tree.nodes && i <= |n.children|
    ensures var r, hs := FirstHit(tree, n, i, x, y, contains), ChildHits(tree, n, x, y, contains);
      (r == n && forall j :: i <= j < |hs| ==> hs[j] == null) ||
      (exists j :: i <= j < |hs| && r == hs[j] && forall k :: i <= k < j ==> hs[k] == null)
    decreases |n.children| - i
  {
    var hs := ChildHits(tree, n, x, y, contains);
    if i < |hs| {
      if hs[i] == null {
        FirstHitIsFirst(tree, n, i + 1, x, y, contains);
        var r := FirstHit(tree, n, i + 1, x, y, contains);
        assert FirstHit(tree, n, i, x, y, contains) == r;
        if !(r == n && forall j :: i + 1 <= j < |hs| ==> hs[j] == null) {
          var j :| i + 1 <= j < |hs| && r == hs[j] && forall k :: i + 1 <= k < j ==> hs[k] == null;
          assert forall k :: i <= k < j ==> hs[k] == null;
        }
      } else {
        assert FirstHit(tree, n, i, x, y, contains) == hs[i];
      }
    }
  }
}
