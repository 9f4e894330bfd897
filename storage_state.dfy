/**
 * The persisted, mutable tree of revealed boards. Every object holds the game
 * state it stands for, a slot per position for the child reached by playing it,
 * and the winner recorded for its board. The ghost field `model` is the value of
 * the subtree (module StorageTrees), which is where the operations are specified.
 */
module StorageStates {
  import opened Wrappers
  import opened GameStates
  import opened RevealedPositions
  import opened StorageTrees

  /** Nine empty slots (the source starts from an empty sparse array). */
  function NoChildren(): (ps: seq<StorageState?>)
    ensures |ps| == 9 && forall i :: 0 <= i < 9 ==> ps[i] == null
  {
    seq(9, _ => null)
  }

  /** The value in slot `i` of a tree's children, if any. */
  function Kid(kids: map<Position, Tree>, i: Position): (k: Option<Tree>)
    ensures k.Some? <==> i in kids
    ensures k.Some? ==> k.value == kids[i]
  {
    if i in kids then Some(kids[i]) else None
  }

  /** Slot `i` of a node at `gs`: empty in both object and model, or a valid child for the
      state reached by playing `i`, whose value is the model's child. */
  ghost predicate Slot(c: StorageState?, i: Position, kid: Option<Tree>, gs: GameState)
    reads if c == null then {} else {c} + c.Repr
    decreases if c == null then {} else c.Repr, 2
  {
    if c == null then kid.None?
    else kid == Some(c.model) && c.Valid() && i !in gs && c.gameState == gs + [i]
  }

  class StorageState {
    const gameState: GameState
    var positions: seq<StorageState?>
    var winner: Option<Player>

    ghost var model: Tree
    ghost var Repr: set<object>

    ghost predicate Valid()
      reads this, Repr
      ensures Valid() ==> this in Repr && model.state == gameState && Shaped(model)
      decreases Repr, 1
    {
      this in Repr &&
      |positions| == 9 &&
      model.state == gameState && model.winner == winner &&
      (forall i: Position :: positions[i] != null ==>
        positions[i] in Repr && positions[i].Repr <= Repr && this !in positions[i].Repr) &&
      (forall i: Position, j: Position :: i != j && positions[i] != null && positions[j] != null ==>
        positions[i].Repr !! positions[j].Repr) &&
      (forall i: Position :: Slot(positions[i], i, Kid(model.kids, i), gameState)) &&
      Shaped(model)
    }

    /** `new StorageState(gameState, positions, winner)`: a node over already built children.
        The ghost parameters name the children's values and a footprint covering them. */
    constructor (s: GameState, ps: seq<StorageState?>, w: Option<Player>,
                 ghost kids: map<Position, Tree>, ghost R: set<object>)
      requires |ps| == 9
      requires forall i: Position :: Slot(ps[i], i, Kid(kids, i), s)
      requires forall i: Position :: ps[i] != null ==> ps[i].Repr <= R
      requires forall i: Position, j: Position :: i != j && ps[i] != null && ps[j] != null ==> ps[i].Repr !! ps[j].Repr
      ensures Valid() && Repr == {this} + R
      ensures gameState == s && positions == ps && winner == w && model == Tree(s, w, kids)
    {
      forall i | i in kids
        ensures i !in s && kids[i].state == s + [i] && Shaped(kids[i])
      {
        assert Slot(ps[i], i, Kid(kids, i), s);
      }
      gameState := s;
      positions := ps;
      winner := w;
      model := Tree(s, w, kids);
      Repr := {this} + R;
    }

    /** `new StorageState(gameState)`: a node with no children and no winner. */
    constructor Empty(s: GameState)
      ensures Valid() && Repr == {this}
      ensures gameState == s && model == EmptyAt(s)
    {
      gameState := s;
      positions := NoChildren();
      winner := None;
      model := EmptyAt(s);
      Repr := {this};
    }

    /** `StorageState.create()`: the initial state, no children, no winner. */
    static method Create() returns (r: StorageState)
      ensures r.Valid() && fresh(r.Repr)
      ensures r.gameState == Initial && r.model == EmptyAt(Initial)
    {
      r := new StorageState.Empty(Initial);
    }

    /** Records the winner if it names this node, then walks one step towards
        `position.gameState`, creating the child there if it is missing. */
    method RevealPosition(position: RevealedPosition)
      requires Valid()
      modifies Repr
      ensures Valid() && fresh(Repr - old(Repr))
      ensures model == Reveal(old(model), position)
      decreases |position.gameState| - |gameState|, 1
    {
      ghost var goal := Reveal(model, position);
      RecordWinner(position);
      var next := NextStep(gameState, position.gameState);
      if next.None? {
        return;
      }
      var (nextState, pos) := next.value;
      ghost var t1 := model;
      ghost var c0 := if pos in t1.kids then t1.kids[pos] else EmptyAt(nextState);
      assert goal == t1.(kids := t1.kids[pos := Reveal(c0, position)]);
      var _ := ChildAt(pos, nextState);
      ghost var t2 := model;
      RevealBelow(pos, position);
      if pos in t1.kids {
        assert t2 == t1;
      } else {
        KidOverwrite(t1, pos, c0, Reveal(c0, position));
      }
    }

    /** `childState.revealPosition(position)` for the child in slot `pos`. */
    method RevealBelow(pos: Position, position: RevealedPosition)
      requires Valid() && positions[pos] != null && |gameState| < |position.gameState|
      modifies Repr
      ensures Valid() && fresh(Repr - old(Repr))
      ensures pos in old(model.kids) &&
        model == old(model).(kids := old(model.kids)[pos := Reveal(old(model.kids[pos]), position)])
      decreases |position.gameState| - |gameState|, 0
    {
      var child := positions[pos];
      assert Slot(child, pos, Kid(model.kids, pos), gameState);
      child.RevealPosition(position);
      Adopt(pos, child);
    }

    /** What holds once the child in slot `pos` has changed below this node: everything
        `Valid()` says, except that `Repr` and `model` have not yet taken in the child's
        new footprint and value. */
    ghost predicate ValidBelow(pos: Position, child: StorageState)
      reads this, Repr, child, child.Repr
    {
      this in Repr && |positions| == 9 && positions[pos] == child &&
      model.state == gameState && model.winner == winner && Shaped(model) &&
      child.Valid() && this !in child.Repr && pos !in gameState && child.gameState == gameState + [pos] &&
      (forall i: Position :: i != pos && positions[i] != null ==>
        positions[i] in Repr && positions[i].Repr <= Repr && this !in positions[i].Repr &&
        positions[i].Repr !! child.Repr) &&
      (forall i: Position, j: Position :: i != pos && j != pos && i != j && positions[i] != null && positions[j] != null ==>
        positions[i].Repr !! positions[j].Repr) &&
      (forall i: Position :: i != pos ==> Slot(positions[i], i, Kid(model.kids, i), gameState))
    }

    /** Takes the changed child in slot `pos` back into `Repr` and `model`. */
    ghost method Adopt(pos: Position, child: StorageState)
      requires ValidBelow(pos, child)
      modifies this
      ensures Valid() && Repr == old(Repr) + child.Repr
      ensures model == old(model).(kids := old(model.kids)[pos := child.model])
    {
      ShapedUpdate(model, pos, child.model);
      Repr, model := Repr + child.Repr, model.(kids := model.kids[pos := child.model]);
    }

    /** The first statement of `revealPosition`: the winner is set when it names this node. */
    method RecordWinner(position: RevealedPosition)
      requires Valid()
      modifies this
      ensures Valid() && Repr == old(Repr) && positions == old(positions)
      ensures model == if position.winner.Some? && position.winner.value.gameState == gameState
        then old(model).(winner := Some(position.winner.value.player)) else old(model)
    {
      var w := position.winner;
      if w.Some? && w.value.gameState == gameState {
        winner := Some(w.value.player);
        model := model.(winner := winner);
      }
    }

    /** The child in slot `pos`, created empty (`new StorageState(nextState)`) when missing. */
    method ChildAt(pos: Position, nextState: GameState) returns (child: StorageState)
      requires Valid() && pos !in gameState && nextState == gameState + [pos]
      modifies this
      ensures Valid() && fresh(Repr - old(Repr)) && child == positions[pos]
      ensures model == if pos in old(model.kids) then old(model)
        else old(model).(kids := old(model.kids)[pos := EmptyAt(nextState)])
    {
      var existing := positions[pos];
      if existing != null {
        child := existing;
      } else {
        child := new StorageState.Empty(nextState);
        positions := positions[pos := child];
        Adopt(pos, child);
      }
    }

    /** Walks towards `state`; when the next step is `state` itself, its slot is cleared,
        discarding the whole subtree below it. */
    method HideState(state: GameState)
      requires Valid()
      modifies Repr
      ensures Valid() && Repr == old(Repr)
      ensures model == Hide(old(model), state)
      decreases Repr, 1
    {
      var next := NextStep(gameState, state);
      if next.None? {
        return;
      }
      var (nextState, pos) := next.value;
      if nextState == state {
        ClearSlot(pos);
        return;
      }
      if positions[pos] == null {
        return;
      }
      HideBelow(pos, state);
    }

    /** `this.positions[position] = undefined`. */
    method ClearSlot(pos: Position)
      requires Valid()
      modifies this
      ensures Valid() && Repr == old(Repr)
      ensures model == old(model).(kids := old(model.kids) - {pos})
    {
      ShapedRemove(model, pos);
      positions, model := positions[pos := null], model.(kids := model.kids - {pos});
    }

    /** `storageStateForNextState.hideState(state)` for the child in slot `pos`. */
    method HideBelow(pos: Position, state: GameState)
      requires Valid() && positions[pos] != null
      modifies Repr
      ensures Valid() && Repr == old(Repr)
      ensures pos in old(model.kids) &&
        model == old(model).(kids := old(model.kids)[pos := Hide(old(model.kids[pos]), state)])
      decreases Repr, 0
    {
      var child := positions[pos];
      assert Slot(child, pos, Kid(model.kids, pos), gameState);
      child.HideState(state);
      Adopt(pos, child);
    }

    /** The generator `getRevealedPositions`, collected into a sequence. */
    method GetRevealedPositions() returns (rs: seq<RevealedPosition>)
      requires Valid()
      ensures rs == Revealed(model)
      decreases Repr
    {
      var revealed := false;
      var revealedWinner := false;
      rs := [];
      ghost var raw: seq<RevealedPosition> := [];
      for i := 0 to 9
        invariant raw == RawUpTo(model, i)
        invariant rs == Adopted(raw, model)
        invariant revealed <==> raw != []
        invariant revealedWinner <==> winner.Some? && AnyUnwon(raw)
      {
        var stateAtIndex := positions[i];
        if stateAtIndex == null {
          continue;
        }
        assert Slot(stateAtIndex, i, Kid(model.kids, i), gameState);
        var below := stateAtIndex.GetRevealedPositions();
        assert raw + below[..0] == raw;
        for k := 0 to |below|
          invariant rs == Adopted(raw + below[..k], model)
          invariant revealed <==> raw + below[..k] != []
          invariant revealedWinner <==> winner.Some? && AnyUnwon(raw + below[..k])
        {
          var r := below[k];
          AdoptedSnoc(raw + below[..k], r, model);
          PrefixSnoc(raw, below, k);
          revealed := true;
          if r.winner.Some? {
            rs := rs + [r];
            continue;
          }
          if winner.Some? {
            revealedWinner := true;
            rs := rs + [RevealedPosition(r.gameState, Some(WinnerRecord(winner.value, gameState)))];
            continue;
          }
          rs := rs + [r];
        }
        assert below[..|below|] == below;
        raw := raw + below;
      }
      if winner.Some? && !revealedWinner {
        rs := rs + [RevealedPosition(gameState, Some(WinnerRecord(winner.value, gameState)))];
        return;
      }
      if !revealed && gameState != Initial {
        rs := rs + [RevealedPosition(gameState, None)];
      }
    }

    /** `toJSON`: a key per present child, and `w` when the winner is truthy. */
    method ToJSON() returns (j: Json)
      requires Valid()
      ensures j == TreeToJson(model)
      decreases Repr
    {
      var slots: map<int, Json> := map[];
      for i := 0 to 9
        invariant forall k :: k in slots <==> 0 <= k < i && k in model.kids
        invariant forall k :: k in slots ==> slots[k] == TreeToJson(model.kids[k])
      {
        var stateAtIndex := positions[i];
        if stateAtIndex != null {
          assert Slot(stateAtIndex, i, Kid(model.kids, i), gameState);
          var child := stateAtIndex.ToJSON();
          slots := slots[i := child];
        }
      }
      var w := if Truthy(winner) then winner else None;
      j := Json(slots, w);
      ghost var expected := TreeToJson(model).slots;
      assert forall k :: k in expected <==> k in slots;
      assert forall k :: k in slots ==> expected[k] == slots[k];
      assert j.slots == expected;
    }

    /** `StorageState.fromJSON(json, gameState)`: `null` stands for the exception thrown by
        `playPosition` when a key names a position already played on the path. */
    static method FromJSON(json: Json, gameState: Option<GameState>) returns (r: StorageState?)
      ensures var s := if gameState.Some? then gameState.value else Initial;
        (r == null <==> JsonToTree(json, s).None?) &&
        (r != null ==> r.Valid() && fresh(r.Repr) && r.gameState == s && r.model == JsonToTree(json, s).value)
      decreases json
    {
      var state := if gameState.Some? then gameState.value else Initial;
      var w := json.w;
      var ps := NoChildren();
      ghost var kids: map<Position, Tree> := map[];
      ghost var R: set<object> := {};
      for i := 0 to 9
        invariant |ps| == 9 && fresh(R)
        invariant forall k: Position :: k in kids <==> k < i && k in json.slots
        invariant forall k: Position :: Slot(ps[k], k, Kid(kids, k), state)
        invariant forall k: Position :: ps[k] != null ==> ps[k].Repr <= R
        invariant forall k: Position, l: Position :: k != l && ps[k] != null && ps[l] != null ==> ps[k].Repr !! ps[l].Repr
        invariant forall k :: k in kids ==> k !in state && JsonToTree(json.slots[k], PlayPosition(state, k)) == Some(kids[k])
      {
        if i !in json.slots {
          continue;
        }
        if i in state {
          JsonToTreeFails(json, state, i);
          return null;
        }
        var child := FromJSON(json.slots[i], Some(PlayPosition(state, i)));
        if child == null {
          JsonToTreeFails(json, state, i);
          return null;
        }
        ps := ps[i := child];
        kids := kids[i := child.model];
        R := R + child.Repr;
      }
      JsonToTreeLoads(json, state, kids);
      r := new StorageState(state, ps, w, kids, R);
    }
  }
}
