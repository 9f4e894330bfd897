/**
 * The active-pointer state machine of `createPointerEvents`
 * (src/scripts/events/create-pointer-events.ts), on values: a state is either
 * no active pointer or an active pointer with its id, its target and whether a
 * pointerdown listener allowed cancelling. Each DOM pointer event gives the
 * next state, the custom event dispatched (if any) and whether
 * `preventDefault()` is called.
 *
 * The targets are a type parameter; the hit search and the listeners' answer
 * to `allowCancel()` are inputs of the down event.
 */
module PointerStates {
  import opened Wrappers
  import opened PointerTargets

  datatype PointerState<T> = Idle | Active(pointerId: int, target: T, cancelAllowed: bool)

  /** The custom event a DOM event causes, if any, and its target. */
  datatype Dispatch<T> = NoDispatch | Dispatched(kind: EventType, target: T)

  /** The effect of one DOM event. */
  datatype Step<T> = Step(next: PointerState<T>, sent: Dispatch<T>, preventDefault: bool)

  /** A DOM pointer event as the handlers see it. For a pointerdown, `hit` is what the
      root's search finds at the event's offset and `allows` whether a pointerdown
      listener of that target calls `allowCancel()`. */
  datatype Input<T> =
    | Press(pointerId: int, isMouse: bool, hit: Option<T>, allows: bool)
    | Release(pointerId: int)
    | Move(pointerId: int)

  /** The `pointerdown` handler. */
  function OnDown<T>(s: PointerState<T>, pointerId: int, isMouse: bool, hit: Option<T>, allows: bool): (r: Step<T>)
    ensures s.Idle? ==> (r.next.Active? <==> hit.Some?)
    ensures s.Idle? && hit.Some? ==>
      r.next == Active(pointerId, hit.value, allows) && r.sent == Dispatched(PointerDown, hit.value)
    ensures s.Active? ==> r.next == s || r.next.Idle?
    ensures s.Active? && r.next.Idle? <==>
      s.Active? && pointerId != s.pointerId && s.cancelAllowed
    ensures s.Active? ==> r.sent == (if r.next.Idle? then Dispatched(PointerCancel, s.target) else NoDispatch)
    ensures s.Idle? && hit.None? ==> r.sent == NoDispatch
    ensures r.preventDefault <==> s.Idle? && hit.Some? && isMouse && allows
  {
    match s
    case Idle =>
      if hit.None? then Step(Idle, NoDispatch, false)
      else Step(Active(pointerId, hit.value, allows), Dispatched(PointerDown, hit.value), isMouse && allows)
    case Active(id, target, cancelAllowed) =>
      if pointerId != id && cancelAllowed then Step(Idle, Dispatched(PointerCancel, target), false)
      else Step(s, NoDispatch, false)
  }

  /** The `pointerup` handler. */
  function OnUp<T>(s: PointerState<T>, pointerId: int): (r: Step<T>)
    ensures r.next.Active? ==> r.next == s
    ensures r.next != s <==> s.Active? && s.pointerId == pointerId
    ensures r.sent == (if s.Active? && s.pointerId == pointerId then Dispatched(PointerUp, s.target) else NoDispatch)
    ensures !r.preventDefault
  {
    if s.Active? && pointerId == s.pointerId then Step(Idle, Dispatched(PointerUp, s.target), false)
    else Step(s, NoDispatch, false)
  }

  /** The `pointermove` handler. */
  function OnMove<T>(s: PointerState<T>, pointerId: int): (r: Step<T>)
    ensures r.next.Active? ==> r.next == s
    ensures r.next != s <==> s.Active? && s.pointerId == pointerId && s.cancelAllowed
    ensures r.sent ==
      (if s.Active? && s.pointerId == pointerId && s.cancelAllowed then Dispatched(PointerCancel, s.target) else NoDispatch)
    ensures !r.preventDefault
  {
    if s.Active? && pointerId == s.pointerId && s.cancelAllowed then Step(Idle, Dispatched(PointerCancel, s.target), false)
    else Step(s, NoDispatch, false)
  }

  /** One DOM event, whichever its kind: an active pointer is never replaced by another;
      a state becomes active only through a pointerdown that hits, taking that event's
      id, target and listeners' answer; cancel is sent only to the active target and
      only when it allowed cancelling; up only to the active target, for its own id. */
  function StepOf<T>(s: PointerState<T>, i: Input<T>): (r: Step<T>)
    ensures s.Active? && r.next.Active? ==> r.next == s
    ensures s.Idle? && r.next.Active? ==>
      i.Press? && i.hit == Some(r.next.target) && r.next.pointerId == i.pointerId &&
      r.next.cancelAllowed == i.allows
    ensures r.sent.Dispatched? && r.sent.kind == PointerCancel ==>
      s.Active? && s.cancelAllowed && r.sent.target == s.target && r.next.Idle?
    ensures r.sent.Dispatched? && r.sent.kind == PointerUp ==>
      s.Active? && i.Release? && i.pointerId == s.pointerId && r.sent.target == s.target && r.next.Idle?
  {
    match i
    case Press(id, isMouse, hit, allows) => OnDown(s, id, isMouse, hit, allows)
    case Release(id) => OnUp(s, id)
    case Move(id) => OnMove(s, id)
  }

  /** The dispatches caused by a sequence of DOM events, from state `s`. */
  function Sent<T>(s: PointerState<T>, inputs: seq<Input<T>>): seq<Dispatch<T>>
    decreases |inputs|
  {
    if inputs == [] then []
    else
      var r := StepOf(s, inputs[0]);
      (if r.sent.Dispatched? then [r.sent] else []) + Sent(r.next, inputs[1..])
  }

  /** The state after a sequence of DOM events. */
  function Final<T>(s: PointerState<T>, inputs: seq<Input<T>>): PointerState<T>
    decreases |inputs|
  {
    if inputs == [] then s else Final(StepOf(s, inputs[0]).next, inputs[1..])
  }

  /** The target that has received a pointerdown and no pointerup or pointercancel yet. */
  function Open<T>(s: PointerState<T>): Option<T> {
    if s.Idle? then None else Some(s.target)
  }

  /** What a target's listeners can rely on, as an automaton over dispatches: a
      pointerdown only when no target is open, then exactly one pointerup or
      pointercancel, to the same target, before the next pointerdown. `None` is a
      violation; otherwise the open target after the dispatches. */
  ghost function Replay<T>(open: Option<T>, sent: seq<Dispatch<T>>): Option<Option<T>>
    decreases |sent|
  {
    if sent == [] then Some(open)
    else
      var d := sent[0];
      if d.NoDispatch? then Replay(open, sent[1..])
      else if d.kind == PointerDown then
        if open.None? then Replay(Some(d.target), sent[1..]) else None
      else if open == Some(d.target) then Replay(None, sent[1..])
      else None
  }

  /** Whatever DOM pointer events arrive, the custom events dispatched follow the
      protocol of `Replay`, and the target left open is the active pointer's. */
  lemma {:induction false} SentFollowsProtocol<T>(s: PointerState<T>, inputs: seq<Input<T>>)
    ensures Replay(Open(s), Sent(s, inputs)) == Some(Open(Final(s, inputs)))
    decreases |inputs|
  {
    if inputs != [] {
      var r := StepOf(s, inputs[0]);
      SentFollowsProtocol(r.next, inputs[1..]);
      var rest := Sent(r.next, inputs[1..]);
      if r.sent.Dispatched? {
        assert Sent(s, inputs) == [r.sent] + rest;
        assert ([r.sent] + rest)[1..] == rest;
      } else {
        assert Sent(s, inputs) == rest;
      }
    }
  }

  /** A pointerdown that hits, with no active pointer, followed by a pointerup with the
      same id: the target receives pointerdown then pointerup, and no pointer is left
      active. */
  lemma PressThenRelease<T>(id: int, isMouse: bool, t: T, allows: bool)
    ensures var inputs := [Press(id, isMouse, Some(t), allows), Release(id)];
      Sent(Idle, inputs) == [Dispatched(PointerDown, t), Dispatched(PointerUp, t)] &&
      Final(Idle, inputs) == Idle
  {
    var inputs := [Press(id, isMouse, Some(t), allows), Release(id)];
    var a: PointerState<T> := Active(id, t, allows);
    var up: seq<Input<T>> := [Release(id)];
    assert inputs[1..] == up && up[1..] == [];
    assert StepOf(Idle, inputs[0]).next == a;
    assert StepOf(a, Release(id)) == Step(Idle, Dispatched(PointerUp, t), false);
    assert Sent(a, up) == [Dispatched(PointerUp, t)];
    assert Final(a, up) == Idle;
  }
}
