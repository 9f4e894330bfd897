/**
 * `createPointerEvents` (src/scripts/events/create-pointer-events.ts): a root
 * target, at most one active pointer, and the three DOM handlers that drive it,
 * each proved to take the step of `PointerStates.StepOf`. Also the gesture
 * holder `CustomPointerEventProducer` with `replaceGesture`.
 */
module PointerEvents {
  import opened Wrappers
  import opened PointerTargets
  import opened PointerStates

  /** The fields of a DOM `PointerEvent` the handlers use; `isMouse` is
      `pointerType === 'mouse'`. */
  datatype PointerEvent = PointerEvent(offsetX: real, offsetY: real, pointerId: int, isMouse: bool)

  /** The listeners a dispatch reaches. */
  function Delivered(d: Dispatch<EventTarget>): seq<Listener>
    reads if d.Dispatched? then {d.target} else {}
  {
    if d.NoDispatch? then [] else d.target.ListenersOf(d.kind)
  }

  class ActivePointer {
    var cancelAllowed: bool
    const pointerId: int
    const target: EventTarget

    constructor (pointerId: int, target: EventTarget)
      ensures !cancelAllowed && this.pointerId == pointerId && this.target == target
    {
      cancelAllowed := false;
      this.pointerId := pointerId;
      this.target := target;
    }

    /** `dispatchPointerDownEvent()`: the target's pointerdown listeners run, and
        cancelling becomes allowed when one of them calls `allowCancel()`. */
    method DispatchPointerDownEvent() returns (called: seq<Listener>)
      modifies this
      ensures called == target.ListenersOf(PointerDown)
      ensures cancelAllowed == (old(cancelAllowed) || AllowsCancel(called))
    {
      var allowed;
      called, allowed := target.DispatchEvent(PointerDown);
      if allowed {
        cancelAllowed := true;
      }
    }

    /** `dispatchPointerCancelEvent()`. */
    method DispatchPointerCancelEvent() returns (called: seq<Listener>)
      ensures called == target.ListenersOf(PointerCancel)
    {
      var allowed;
      called, allowed := target.DispatchEvent(PointerCancel);
    }

    /** `dispatchPointerUpEvent()`. */
    method DispatchPointerUpEvent() returns (called: seq<Listener>)
      ensures called == target.ListenersOf(PointerUp)
    {
      var allowed;
      called, allowed := target.DispatchEvent(PointerUp);
    }
  }

  /** `NoopGesture` and `PointerThatIsDown`, with what they were constructed from. */
  datatype GestureKind =
    | Noop
    | PointerThatIsDown(target: EventTarget, x: real, y: real, pointerId: int, cancelAllowed: bool)

  class Gesture {
    const kind: GestureKind
    const rootTarget: EventTarget

    constructor (kind: GestureKind, rootTarget: EventTarget)
      ensures this.kind == kind && this.rootTarget == rootTarget
    {
      this.kind := kind;
      this.rootTarget := rootTarget;
    }

    /** `NoopGesture.handlePointerDown(event)`, with `producer` the object whose
        `replaceGesture` the gesture was given: nothing happens when the root's search
        finds no target; otherwise the target's pointerdown listeners run, a mouse
        event's default is prevented when one of them allowed cancelling, and this
        gesture asks to be replaced by a fresh `PointerThatIsDown` recording the target,
        the offset, the pointer id and the listeners' answer. */
    method HandlePointerDown(ev: PointerEvent, producer: CustomPointerEventProducer, contains: Contains, ghost tree: TargetTree)
      returns (called: seq<Listener>, preventDefault: bool)
      requires kind.Noop? && tree.Valid() && rootTarget in tree.nodes
      modifies producer
      ensures var hit := Hit(tree, rootTarget, ev.offsetX, ev.offsetY, contains);
        hit == null ==> called == [] && !preventDefault && producer.gesture == old(producer.gesture)
      ensures var hit := Hit(tree, rootTarget, ev.offsetX, ev.offsetY, contains);
        hit != null ==>
          called == hit.ListenersOf(PointerDown) &&
          preventDefault == (ev.isMouse && AllowsCancel(called)) &&
          (old(producer.gesture) != this ==> producer.gesture == old(producer.gesture)) &&
          (old(producer.gesture) == this ==>
             fresh(producer.gesture) && producer.gesture.rootTarget == rootTarget &&
             producer.gesture.kind == PointerThatIsDown(hit, ev.offsetX, ev.offsetY, ev.pointerId, AllowsCancel(called)))
    {
      var target := rootTarget.FindTarget(ev.offsetX, ev.offsetY, contains, tree);
      called, preventDefault := [], false;
      if target != null {
        var cancelAllowed;
        called, cancelAllowed := target.DispatchEvent(PointerDown);
        preventDefault := ev.isMouse && cancelAllowed;
        var down := new Gesture(PointerThatIsDown(target, ev.offsetX, ev.offsetY, ev.pointerId, cancelAllowed), rootTarget);
        producer.ReplaceGesture(this, down);
      }
    }
  }

  class CustomPointerEventProducer {
    var gesture: Gesture

    /** Starts with a `NoopGesture` on the root target. */
    constructor (rootTarget: EventTarget)
      ensures fresh(gesture) && gesture.kind == Noop && gesture.rootTarget == rootTarget
    {
      gesture := new Gesture(Noop, rootTarget);
    }

    /** `replaceGesture(oldValue, newValue)`: installs `newValue` only when `oldValue` is
        the current gesture; a stale request changes nothing. */
    method ReplaceGesture(oldValue: Gesture, newValue: Gesture)
      modifies this
      ensures old(gesture) == oldValue ==> gesture == newValue
      ensures old(gesture) != oldValue ==> gesture == old(gesture)
    {
      if oldValue != gesture {
        return;
      }
      gesture := newValue;
    }
  }

  /** The state `createPointerEvents` keeps in its closure, and its handlers. */
  class PointerEvents {
    const tree: TargetTree
    const rootTarget: EventTarget
    const contains: Contains
    const eventProducer: CustomPointerEventProducer
    var activePointer: ActivePointer?

    ghost predicate Valid()
      reads this, tree, tree.nodes
    {
      tree.Valid() && rootTarget == tree.root
    }

    /** The active-pointer state. */
    function State(): PointerState<EventTarget>
      reads this, activePointer
    {
      if activePointer == null then Idle
      else Active(activePointer.pointerId, activePointer.target, activePointer.cancelAllowed)
    }

    /** A DOM pointerdown as the state machine sees it: what the root's search finds at
        the event's offset and whether that target's pointerdown listeners allow
        cancelling. */
    ghost function PressOf(ev: PointerEvent): Input<EventTarget>
      requires Valid()
      reads this, tree, tree.nodes
    {
      var t := Hit(tree, rootTarget, ev.offsetX, ev.offsetY, contains);
      var hit: Option<EventTarget> := if t == null then None else var found: EventTarget := t; Some(found);
      Press(ev.pointerId, ev.isMouse, hit, hit.Some? && AllowsCancel(hit.value.ListenersOf(PointerDown)))
    }

    /** `createPointerEvents(pointerEvents)`: a fresh root target (the result), a
        producer on it and no active pointer. */
    constructor (contains: Contains)
      ensures Valid() && fresh(tree) && fresh(rootTarget) && tree.nodes == {rootTarget}
      ensures rootTarget.children == [] && State() == Idle && this.contains == contains
    {
      var t := new TargetTree();
      tree := t;
      rootTarget := t.root;
      this.contains := contains;
      eventProducer := new CustomPointerEventProducer(t.root);
      activePointer := null;
    }

    /** The `pointerdown` handler. The root has no area, so with no active pointer
        every pointerdown activates one. */
    method HandlePointerDown(ev: PointerEvent) returns (sent: Dispatch<EventTarget>, called: seq<Listener>, preventDefault: bool)
      requires Valid()
      modifies this
      ensures Valid()
      ensures Step(State(), sent, preventDefault) == StepOf(old(State()), PressOf(ev))
      ensures old(State()).Idle? ==> State().Active? && State().pointerId == ev.pointerId
      ensures called == Delivered(sent)
    {
      sent, called, preventDefault := NoDispatch, [], false;
      if activePointer == null {
        var target := rootTarget.FindTarget(ev.offsetX, ev.offsetY, contains, tree);
        if target != null {
          var newActivePointer := new ActivePointer(ev.pointerId, target);
          called := newActivePointer.DispatchPointerDownEvent();
          activePointer := newActivePointer;
          preventDefault := ev.isMouse && newActivePointer.cancelAllowed;
          sent := Dispatched(PointerDown, target);
        }
      } else if ev.pointerId != activePointer.pointerId && activePointer.cancelAllowed {
        called := activePointer.DispatchPointerCancelEvent();
        sent := Dispatched(PointerCancel, activePointer.target);
        activePointer := null;
      }
    }

    /** The `pointerup` handler. */
    method HandlePointerUp(ev: PointerEvent) returns (sent: Dispatch<EventTarget>, called: seq<Listener>)
      requires Valid()
      modifies this
      ensures Valid()
      ensures Step(State(), sent, false) == StepOf(old(State()), Release(ev.pointerId))
      ensures called == Delivered(sent)
    {
      sent, called := NoDispatch, [];
      if activePointer != null && ev.pointerId == activePointer.pointerId {
        called := activePointer.DispatchPointerUpEvent();
        sent := Dispatched(PointerUp, activePointer.target);
        activePointer := null;
      }
    }

    /** The `pointermove` handler. */
    method HandlePointerMove(ev: PointerEvent) returns (sent: Dispatch<EventTarget>, called: seq<Listener>)
      requires Valid()
      modifies this
      ensures Valid()
      ensures Step(State(), sent, false) == StepOf(old(State()), Move(ev.pointerId))
      ensures called == Delivered(sent)
    {
      sent, called := NoDispatch, [];
      if activePointer != null && ev.pointerId == activePointer.pointerId && activePointer.cancelAllowed {
        called := activePointer.DispatchPointerCancelEvent();
        sent := Dispatched(PointerCancel, activePointer.target);
        activePointer := null;
      }
    }
  }
}
