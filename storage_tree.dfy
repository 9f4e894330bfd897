/**
 * The persisted map of revealed boards, as a value: one node per revealed game
 * state, each node optionally carrying the player who won that board. This is the
 * abstract value of a StorageState object (module StorageStates) and the place
 * where the behaviour of its operations is specified and proved.
 */
module StorageTrees {
  import opened Wrappers
  import opened GameStates
  import opened RevealedPositions

  /** The value of one StorageState: its game state, its winner and its children by position. */
  datatype Tree = Tree(state: GameState, winner: Option<Player>, kids: map<Position, Tree>)

  /** A node with no children and no winner. */
  function EmptyAt(s: GameState): Tree {
    Tree(s, None, map[])
  }

  /** The child in slot `i` is the node of the state reached by playing `i`. */
  ghost predicate Shaped(t: Tree)
    decreases t
  {
    forall i :: i in t.kids ==> i !in t.state && t.kids[i].state == t.state + [i] && Shaped(t.kids[i])
  }

  /** Putting a well-shaped node for `t.state + [i]` into slot `i` keeps the tree well-shaped. */
  lemma ShapedUpdate(t: Tree, i: Position, k: Tree)
    requires Shaped(t) && Shaped(k) && i !in t.state && k.state == t.state + [i]
    ensures Shaped(t.(kids := t.kids[i := k]))
  {
  }

  /** Emptying slot `i` keeps the tree well-shaped. */
  lemma ShapedRemove(t: Tree, i: Position)
    requires Shaped(t)
    ensures Shaped(t.(kids := t.kids - {i}))
  {
  }

  /** Filling slot `i` twice leaves only the second child. */
  lemma KidOverwrite(t: Tree, i: Position, a: Tree, b: Tree)
    ensures (var t1 := t.(kids := t.kids[i := a]); t1.(kids := t1.kids[i := b])) == t.(kids := t.kids[i := b])
  {
    assert t.kids[i := a][i := b] == t.kids[i := b];
  }

  /** Filling slot `i` with the child already there changes nothing. */
  lemma KidSame(t: Tree, i: Position)
    requires i in t.kids
    ensures t.(kids := t.kids[i := t.kids[i]]) == t
  {
    assert t.kids[i := t.kids[i]] == t.kids;
  }

  // ---------------------------------------------------------------------------
  // Walking towards a descendant
  // ---------------------------------------------------------------------------

  /** The next state on the way from `here` to `s`, with the position played to reach it. */
  function NextStep(here: GameState, s: GameState): (r: Option<(GameState, Position)>)
    ensures r.Some? <==> here < s
    ensures r.Some? ==> r.value.0 == s[..|here| + 1] && r.value.1 == s[|here|]
    ensures r.Some? ==> r.value.1 !in here && r.value.0 == here + [r.value.1]
  {
    var index := IndexOfPredecessor(s, here);
    if index == -1 then None
    else match PredecessorAtIndex(s, index + 1)
      case None => None
      case Some(next) =>
        assert next[..|here|] == here && next == here + [s[|here|]];
        assert s[|here|] !in here by {
          forall k | 0 <= k < |here| ensures here[k] != s[|here|] { assert here[k] == s[k]; }
        }
        Some((next, LastPlayedPosition(next).value))
  }

  /** The node of game state `s` in `t`, found by walking from the root. */
  function NodeAt(t: Tree, s: GameState): (r: Option<Tree>)
    ensures r.Some? ==> r.value.state == s && t.state <= s
    decreases t
  {
    if t.state == s then Some(t)
    else match NextStep(t.state, s)
      case None => None
      case Some((_, pos)) => if pos in t.kids then NodeAt(t.kids[pos], s) else None
  }

  lemma NodeAtKid(t: Tree, i: Position, s: GameState)
    requires Shaped(t) && i in t.kids && NodeAt(t.kids[i], s).Some?
    ensures NodeAt(t, s) == NodeAt(t.kids[i], s)
  {
    var kid := t.kids[i];
    assert kid.state <= s;
    assert t.state < kid.state;
    assert s[|t.state|] == kid.state[|t.state|] == i;
  }

  /** A node below `t` lies in the child whose position starts the rest of its path. */
  lemma NodeAtSplit(t: Tree, s: GameState)
    requires Shaped(t) && t.state < s
    ensures NodeAt(t, s) == (if s[|t.state|] in t.kids then NodeAt(t.kids[s[|t.state|]], s) else None)
  {
  }

  // ---------------------------------------------------------------------------
  // revealPosition
  // ---------------------------------------------------------------------------

  /** The tree after `revealPosition(rp)` on its root. */
  function Reveal(t: Tree, rp: RevealedPosition): (r: Tree)
    requires Shaped(t)
    ensures Shaped(r) && r.state == t.state
    decreases |rp.gameState| - |t.state|
  {
    var t1 := if rp.winner.Some? && rp.winner.value.gameState == t.state
      then t.(winner := Some(rp.winner.value.player)) else t;
    match NextStep(t.state, rp.gameState)
    case None => t1
    case Some((next, pos)) =>
      var child := if pos in t1.kids then t1.kids[pos] else EmptyAt(next);
      t1.(kids := t1.kids[pos := Reveal(child, rp)])
  }

  /** The nodes a reveal walks through: the root, and every state from the root to `rp.gameState`. */
  ghost predicate OnRevealPath(t: Tree, rp: RevealedPosition, s: GameState) {
    s == t.state || (t.state <= s && s <= rp.gameState)
  }

  /** A reveal adds exactly the missing nodes on the path to `rp.gameState` and removes none. */
  lemma {:induction false} RevealNodes(t: Tree, rp: RevealedPosition, s: GameState)
    requires Shaped(t)
    ensures NodeAt(Reveal(t, rp), s).Some? <==> NodeAt(t, s).Some? || (t.state <= s && s <= rp.gameState)
    decreases |rp.gameState| - |t.state|
  {
    var r := Reveal(t, rp);
    if s == t.state || !(t.state < s) {
    } else {
      var q := s[|t.state|];
      NodeAtSplit(t, s);
      NodeAtSplit(r, s);
      match NextStep(t.state, rp.gameState)
      case None =>
      case Some((next, pos)) =>
        if q == pos {
          var child := if pos in t.kids then t.kids[pos] else EmptyAt(next);
          RevealNodes(child, rp, s);
          assert child.state == next == t.state + [q];
          assert s[..|t.state| + 1] == next;
          assert next <= s;
        } else {
          assert rp.gameState[|t.state|] == pos;
        }
    }
  }

  /** A winner is recorded exactly at the node named by `rp.winner`, when the walk passes it;
      every other node keeps its winner (a new node has none). */
  lemma {:induction false} RevealWinners(t: Tree, rp: RevealedPosition, s: GameState)
    requires Shaped(t) && NodeAt(Reveal(t, rp), s).Some?
    ensures NodeAt(Reveal(t, rp), s).value.winner ==
      if rp.winner.Some? && rp.winner.value.gameState == s && OnRevealPath(t, rp, s)
      then Some(rp.winner.value.player)
      else if NodeAt(t, s).Some? then NodeAt(t, s).value.winner
      else None
    decreases |rp.gameState| - |t.state|
  {
    var r := Reveal(t, rp);
    if s == t.state {
    } else {
      var q := s[|t.state|];
      NodeAtSplit(t, s);
      NodeAtSplit(r, s);
      match NextStep(t.state, rp.gameState)
      case None =>
      case Some((next, pos)) =>
        if q == pos {
          var child := if pos in t.kids then t.kids[pos] else EmptyAt(next);
          RevealWinners(child, rp, s);
          assert s[..|t.state| + 1] == next;
          assert OnRevealPath(child, rp, s) <==> OnRevealPath(t, rp, s);
          if pos !in t.kids {
            assert NodeAt(t, s).None?;
            assert NodeAt(child, s).Some? ==> s == next;
          }
        } else {
          assert rp.gameState[|t.state|] == pos;
        }
    }
  }

  /** Every subtree off the path to `rp.gameState` is left exactly as it was. */
  lemma {:induction false} RevealOffPath(t: Tree, rp: RevealedPosition, s: GameState)
    requires Shaped(t) && NodeAt(t, s).Some? && s != t.state && !(s <= rp.gameState)
    ensures NodeAt(Reveal(t, rp), s) == NodeAt(t, s)
    decreases |rp.gameState| - |t.state|
  {
    var r := Reveal(t, rp);
    var q := s[|t.state|];
    NodeAtSplit(t, s);
    NodeAtSplit(r, s);
    match NextStep(t.state, rp.gameState)
    case None =>
    case Some((next, pos)) =>
      if q == pos {
        var child := t.kids[pos];
        assert s[..|t.state| + 1] == next;
        assert next <= rp.gameState;
        RevealOffPath(child, rp, s);
      }
  }

  /** A record about a state that is not below the root changes at most the root's winner. */
  lemma RevealNonDescendant(t: Tree, rp: RevealedPosition)
    requires Shaped(t) && !(t.state < rp.gameState)
    ensures Reveal(t, rp) == if rp.winner.Some? && rp.winner.value.gameState == t.state
      then t.(winner := Some(rp.winner.value.player)) else t
  {
  }

  /** Applying the same record twice is the same as applying it once. */
  lemma {:induction false} RevealIdempotent(t: Tree, rp: RevealedPosition)
    requires Shaped(t)
    ensures Reveal(Reveal(t, rp), rp) == Reveal(t, rp)
    decreases |rp.gameState| - |t.state|
  {
    match NextStep(t.state, rp.gameState)
    case None =>
    case Some((next, pos)) =>
      var t1 := if rp.winner.Some? && rp.winner.value.gameState == t.state
        then t.(winner := Some(rp.winner.value.player)) else t;
      var child := if pos in t1.kids then t1.kids[pos] else EmptyAt(next);
      RevealIdempotent(child, rp);
      var r := Reveal(t, rp);
      assert r.kids[pos] == Reveal(child, rp);
      assert r.kids[pos := Reveal(Reveal(child, rp), rp)] == r.kids;
  }

  // ---------------------------------------------------------------------------
  // hideState
  // ---------------------------------------------------------------------------

  /** The tree after `hideState(s)` on its root. */
  function Hide(t: Tree, s: GameState): (r: Tree)
    requires Shaped(t)
    ensures Shaped(r) && r.state == t.state
    decreases |s| - |t.state|
  {
    match NextStep(t.state, s)
    case None => t
    case Some((next, pos)) =>
      if next == s then t.(kids := t.kids - {pos})
      else if pos !in t.kids then t
      else t.(kids := t.kids[pos := Hide(t.kids[pos], s)])
  }

  /** Hiding removes exactly the node of `s` and its descendants, and keeps every winner. */
  lemma {:induction false} HideNodes(t: Tree, s: GameState, q: GameState)
    requires Shaped(t)
    ensures NodeAt(Hide(t, s), q).Some? <==> NodeAt(t, q).Some? && !(t.state < s && s <= q)
    ensures NodeAt(Hide(t, s), q).Some? ==> NodeAt(Hide(t, s), q).value.winner == NodeAt(t, q).value.winner
    decreases |s| - |t.state|
  {
    var r := Hide(t, s);
    if q == t.state || !(t.state < q) {
    } else {
      var c := q[|t.state|];
      NodeAtSplit(t, q);
      NodeAtSplit(r, q);
      match NextStep(t.state, s)
      case None =>
      case Some((next, pos)) =>
        if c == pos {
          assert q[..|t.state| + 1] == next;
          if next == s {
          } else if pos in t.kids {
            HideNodes(t.kids[pos], s, q);
          }
        } else {
          assert s[|t.state|] == pos;
        }
    }
  }

  /** Hiding a state that has no node, or the root's own state, changes nothing. */
  lemma {:induction false} HideAbsent(t: Tree, s: GameState)
    requires Shaped(t) && (NodeAt(t, s).None? || s == t.state)
    ensures Hide(t, s) == t
    decreases |s| - |t.state|
  {
    match NextStep(t.state, s)
    case None =>
    case Some((next, pos)) =>
      NodeAtSplit(t, s);
      if next == s {
        assert pos !in t.kids;
        assert t.kids - {pos} == t.kids;
      } else if pos in t.kids {
        HideAbsent(t.kids[pos], s);
        assert t.kids[pos := t.kids[pos]] == t.kids;
      }
  }

  // ---------------------------------------------------------------------------
  // getRevealedPositions
  // ---------------------------------------------------------------------------

  /** A record from below inherits the node's winner unless it already carries one. */
  function Adopt(r: RevealedPosition, t: Tree): RevealedPosition {
    if r.winner.Some? then r
    else if t.winner.Some? then RevealedPosition(r.gameState, Some(WinnerRecord(t.winner.value, t.state)))
    else r
  }

  function Adopted(rs: seq<RevealedPosition>, t: Tree): (r: seq<RevealedPosition>)
    ensures |r| == |rs|
  {
    seq(|rs|, k requires 0 <= k < |rs| => Adopt(rs[k], t))
  }

  predicate AnyUnwon(rs: seq<RevealedPosition>) {
    exists k :: 0 <= k < |rs| && rs[k].winner.None?
  }

  lemma AdoptedSnoc(rs: seq<RevealedPosition>, r: RevealedPosition, t: Tree)
    ensures Adopted(rs + [r], t) == Adopted(rs, t) + [Adopt(r, t)]
    ensures AnyUnwon(rs + [r]) <==> AnyUnwon(rs) || r.winner.None?
  {
    assert (rs + [r])[|rs|] == r;
    if AnyUnwon(rs) {
      var k :| 0 <= k < |rs| && rs[k].winner.None?;
      assert (rs + [r])[k] == rs[k];
    }
  }

  function KidRecords(t: Tree, i: Position): seq<RevealedPosition>
    decreases t, 0
  {
    if i in t.kids then Revealed(t.kids[i]) else []
  }

  /** The records of the children in slots `0 .. n-1`, in slot order. */
  function RawUpTo(t: Tree, n: nat): seq<RevealedPosition>
    requires n <= 9
    decreases t, 1, n
  {
    if n == 0 then [] else RawUpTo(t, n - 1) + KidRecords(t, n - 1)
  }

  /** The records `getRevealedPositions` yields for a node, in order. */
  function Revealed(t: Tree): seq<RevealedPosition>
    decreases t, 2
  {
    var raw := RawUpTo(t, 9);
    var revealedWinner := t.winner.Some? && AnyUnwon(raw);
    if t.winner.Some? && !revealedWinner then
      Adopted(raw, t) + [RevealedPosition(t.state, Some(WinnerRecord(t.winner.value, t.state)))]
    else if raw == [] && t.state != Initial then
      [RevealedPosition(t.state, None)]
    else
      Adopted(raw, t)
  }

  /** What every yielded record satisfies relative to the tree it came from: it names a node,
      and a winner it carries is recorded at a node on the path to that record. */
  ghost predicate Sound(t: Tree, r: RevealedPosition) {
    NodeAt(t, r.gameState).Some? &&
    (r.winner.Some? ==>
      r.winner.value.gameState <= r.gameState &&
      NodeAt(t, r.winner.value.gameState).Some? &&
      NodeAt(t, r.winner.value.gameState).value.winner == Some(r.winner.value.player))
  }

  lemma SoundInKid(t: Tree, i: Position, r: RevealedPosition)
    requires Shaped(t) && i in t.kids && Sound(t.kids[i], r)
    ensures Sound(t, r)
  {
    NodeAtKid(t, i, r.gameState);
    if r.winner.Some? {
      NodeAtKid(t, i, r.winner.value.gameState);
    }
  }

  lemma {:induction false} RawSound(t: Tree, n: nat)
    requires Shaped(t) && n <= 9
    ensures forall r :: r in RawUpTo(t, n) ==> Sound(t, r)
    decreases t, 1, n
  {
    if n > 0 {
      RawSound(t, n - 1);
      var i: Position := n - 1;
      if i in t.kids {
        RevealedSound(t.kids[i]);
        forall r | r in Revealed(t.kids[i]) ensures Sound(t, r) { SoundInKid(t, i, r); }
      }
    }
  }

  /** Every record `getRevealedPositions` yields names a revealed node, and every winner it
      carries was recorded on that node or one of its ancestors. */
  lemma {:induction false} RevealedSound(t: Tree)
    requires Shaped(t)
    ensures forall r :: r in Revealed(t) ==> Sound(t, r)
    decreases t, 2
  {
    var raw := RawUpTo(t, 9);
    RawSound(t, 9);
    forall k | 0 <= k < |raw| ensures Sound(t, Adopted(raw, t)[k]) {
      assert raw[k] in raw;
    }
  }

  lemma RawMember(t: Tree, n: nat, i: Position, r: RevealedPosition)
    requires n <= 9 && i < n && i in t.kids && r in Revealed(t.kids[i])
    ensures r in RawUpTo(t, n)
  {
    if i < n - 1 {
      RawMember(t, n - 1, i, r);
    }
  }

  lemma RawEmpty(t: Tree, n: nat)
    requires n <= 9 && t.kids == map[]
    ensures RawUpTo(t, n) == []
  {
    if n > 0 { RawEmpty(t, n - 1); }
  }

  /** A record of a child that already carries a winner reaches the output unchanged. */
  lemma WonRecordPassesThrough(t: Tree, r: RevealedPosition)
    requires r in RawUpTo(t, 9) && r.winner.Some?
    ensures r in Revealed(t)
  {
    var raw := RawUpTo(t, 9);
    var k :| 0 <= k < |raw| && raw[k] == r;
    assert Adopted(raw, t)[k] == r;
  }

  /** A child's record without a winner inherits the node's winner: on a won node it is
      yielded carrying that winner and the node's state, and never without a winner; on an
      unwon node it is yielded unchanged. */
  lemma {:induction false} UnwonRecordInherits(t: Tree, r: RevealedPosition)
    requires r in RawUpTo(t, 9) && r.winner.None?
    ensures t.winner.Some? ==>
      RevealedPosition(r.gameState, Some(WinnerRecord(t.winner.value, t.state))) in Revealed(t) &&
      r !in Revealed(t)
    ensures t.winner.None? ==> r in Revealed(t)
  {
    var raw := RawUpTo(t, 9);
    var k :| 0 <= k < |raw| && raw[k] == r;
    assert AnyUnwon(raw);
    assert Revealed(t) == Adopted(raw, t);
    assert Adopted(raw, t)[k] == Adopt(r, t);
    if t.winner.Some? {
      forall j | 0 <= j < |raw| ensures Adopted(raw, t)[j] != r {
        assert Adopted(raw, t)[j].winner.Some?;
      }
    }
  }

  /** Every recorded win is reported by at least one yielded record (so a view loaded from
      storage learns of every won board). */
  lemma {:induction false} WinsAnnounced(t: Tree, s: GameState)
    requires Shaped(t) && NodeAt(t, s).Some? && NodeAt(t, s).value.winner.Some?
    ensures exists r :: r in Revealed(t) && r.winner == Some(WinnerRecord(NodeAt(t, s).value.winner.value, s))
    decreases t
  {
    var raw := RawUpTo(t, 9);
    if s == t.state {
      var w := WinnerRecord(t.winner.value, t.state);
      if AnyUnwon(raw) {
        var k :| 0 <= k < |raw| && raw[k].winner.None?;
        assert Adopted(raw, t)[k].winner == Some(w);
        assert Adopted(raw, t)[k] in Revealed(t);
      } else {
        assert Revealed(t)[|raw|] == RevealedPosition(t.state, Some(w));
      }
    } else {
      var i := s[|t.state|];
      NodeAtSplit(t, s);
      WinsAnnounced(t.kids[i], s);
      var r :| r in Revealed(t.kids[i]) && r.winner == Some(WinnerRecord(NodeAt(t, s).value.winner.value, s));
      RawMember(t, 9, i, r);
      WonRecordPassesThrough(t, r);
    }
  }

  /** Every revealed board without revealed children, other than the initial one, is yielded. */
  lemma {:induction false} LeavesYielded(t: Tree, s: GameState)
    requires Shaped(t) && NodeAt(t, s).Some? && NodeAt(t, s).value.kids == map[] && s != Initial
    ensures exists r :: r in Revealed(t) && r.gameState == s
    decreases t
  {
    var raw := RawUpTo(t, 9);
    if s == t.state {
      RawEmpty(t, 9);
      assert Revealed(t)[0].gameState == s;
    } else {
      var i := s[|t.state|];
      NodeAtSplit(t, s);
      LeavesYielded(t.kids[i], s);
      var r :| r in Revealed(t.kids[i]) && r.gameState == s;
      RawMember(t, 9, i, r);
      var k :| 0 <= k < |raw| && raw[k] == r;
      assert Adopted(raw, t)[k].gameState == s;
      assert Adopted(raw, t)[k] in Revealed(t);
    }
  }

  /** A fresh storage (the initial state, no children, no winner) yields nothing. */
  lemma EmptyRootYieldsNothing()
    ensures Revealed(EmptyAt(Initial)) == []
  {
    RawEmpty(EmptyAt(Initial), 9);
  }

  // ---------------------------------------------------------------------------
  // toJSON / fromJSON
  // ---------------------------------------------------------------------------

  /** The persisted shape `{ "0".."8": child, w?: player }`; keys are kept as integers. */
  datatype Json = Json(slots: map<int, Json>, w: Option<Player>)

  /** `if (winner)`: a missing winner and player 0 are both falsy. */
  predicate Truthy(w: Option<Player>) {
    w.Some? && w.value != NoPlayer
  }

  /** The object `toJSON` produces for a node (children are serialized the same way). */
  function TreeToJson(t: Tree): (j: Json)
    ensures forall i: int :: i in j.slots <==> 0 <= i <= 8 && i in t.kids
    ensures j.w == if Truthy(t.winner) then t.winner else None
    decreases t
  {
    Json(map i: int | 0 <= i <= 8 && i in t.kids :: TreeToJson(t.kids[i]),
         if Truthy(t.winner) then t.winner else None)
  }

  /** `fromJSON(j, s)`: the child in slot `i` is built for `s.playPosition(i)`; a key already
      played on the path makes `playPosition` throw, so the whole call fails. Keys outside
      0..8 are ignored. */
  function JsonToTree(j: Json, s: GameState): (r: Option<Tree>)
    ensures r.Some? ==> r.value.state == s && r.value.winner == j.w && Shaped(r.value)
    ensures r.Some? ==> forall i: Position :: i in r.value.kids <==> i in j.slots
    decreases j
  {
    if forall i: Position :: i in j.slots ==> i !in s && JsonToTree(j.slots[i], PlayPosition(s, i)).Some? then
      Some(Tree(s, j.w, map i: Position | i in j.slots :: JsonToTree(j.slots[i], PlayPosition(s, i)).value))
    else None
  }

  /** One slot that cannot be loaded makes the whole load fail. */
  lemma JsonToTreeFails(j: Json, s: GameState, i: Position)
    requires i in j.slots && (i in s || JsonToTree(j.slots[i], PlayPosition(s, i)).None?)
    ensures JsonToTree(j, s).None?
  {
  }

  /** When every slot loads, the node is built from the loaded children. */
  lemma JsonToTreeLoads(j: Json, s: GameState, kids: map<Position, Tree>)
    requires forall i: Position :: i in kids <==> i in j.slots
    requires forall i :: i in kids ==> i !in s && JsonToTree(j.slots[i], PlayPosition(s, i)) == Some(kids[i])
    ensures JsonToTree(j, s) == Some(Tree(s, j.w, kids))
  {
    var m := map i: Position | i in j.slots :: JsonToTree(j.slots[i], PlayPosition(s, i)).value;
    assert JsonToTree(j, s) == Some(Tree(s, j.w, m));
    assert forall i :: i in m <==> i in kids;
    assert m == kids;
  }

  /** JSON such as `toJSON` writes: keys in 0..8 and no `w` of 0, at every level. */
  ghost predicate WellFormed(j: Json)
    decreases j
  {
    (forall i :: i in j.slots ==> 0 <= i <= 8 && WellFormed(j.slots[i])) && j.w != Some(NoPlayer)
  }

  /** No node records player 0 as its winner. */
  ghost predicate NoZeroWinner(t: Tree)
    decreases t
  {
    t.winner != Some(NoPlayer) && forall i :: i in t.kids ==> NoZeroWinner(t.kids[i])
  }

  /** Well-formed JSON that loads without error serializes back to itself. */
  lemma {:induction false} JsonRoundTrip(j: Json, s: GameState)
    requires WellFormed(j) && JsonToTree(j, s).Some?
    ensures TreeToJson(JsonToTree(j, s).value) == j
    decreases j
  {
    var t := JsonToTree(j, s).value;
    var back := TreeToJson(t);
    forall i | i in j.slots ensures i in back.slots && back.slots[i] == j.slots[i] {
      var p: Position := i;
      JsonRoundTrip(j.slots[i], PlayPosition(s, p));
    }
    assert back.slots == j.slots;
  }

  /** A shaped tree without zero winners loads back from its JSON unchanged. */
  lemma {:induction false} TreeRoundTrip(t: Tree)
    requires Shaped(t) && NoZeroWinner(t)
    ensures JsonToTree(TreeToJson(t), t.state) == Some(t)
    decreases t
  {
    var j := TreeToJson(t);
    forall i | i in t.kids
      ensures i !in t.state && JsonToTree(j.slots[i], PlayPosition(t.state, i)) == Some(t.kids[i])
    {
      TreeRoundTrip(t.kids[i]);
    }
    JsonToTreeLoads(j, t.state, t.kids);
  }

  /** Storing and reloading keeps the records a view is rehydrated from. */
  lemma StoredRevealedPositions(t: Tree)
    requires Shaped(t) && NoZeroWinner(t)
    ensures JsonToTree(TreeToJson(t), t.state).Some?
    ensures Revealed(JsonToTree(TreeToJson(t), t.state).value) == Revealed(t)
  {
    TreeRoundTrip(t);
  }

  // ---------------------------------------------------------------------------
  // Worked examples
  // ---------------------------------------------------------------------------

  /** `{w: 1, 4: {w: 2}}` loads as a root won by X with a child at 4 won by O. The child is
      reported with its own winner, O, and the root then reports its own win. */
  lemma {:induction false} LoadedWonChild()
    ensures var j := Json(map[4 := Json(map[], Some(O))], Some(X));
      JsonToTree(j, Initial) == Some(Tree(Initial, Some(X), map[4 := Tree([4], Some(O), map[])])) &&
      Revealed(JsonToTree(j, Initial).value) ==
        [RevealedPosition([4], Some(WinnerRecord(O, [4]))), RevealedPosition(Initial, Some(WinnerRecord(X, Initial)))]
  {
    var child := Tree([4], Some(O), map[]);
    var root := Tree(Initial, Some(X), map[4 := child]);
    var j := Json(map[4 := Json(map[], Some(O))], Some(X));
    JsonToTreeLoads(j.slots[4], [4], map[]);
    assert PlayPosition(Initial, 4) == [4];
    JsonToTreeLoads(j, Initial, map[4 := child]);
    RawEmpty(child, 9);
    var own := RevealedPosition([4], Some(WinnerRecord(O, [4])));
    assert Revealed(child) == [own];
    // Slots 0..3 are empty, slot 4 holds the child, slots 5..8 are empty.
    assert RawUpTo(root, 1) == [] && RawUpTo(root, 2) == [] && RawUpTo(root, 3) == [] && RawUpTo(root, 4) == [];
    assert RawUpTo(root, 5) == [own];
    assert RawUpTo(root, 6) == [own] && RawUpTo(root, 7) == [own] && RawUpTo(root, 8) == [own];
    assert RawUpTo(root, 9) == [own];
    assert !AnyUnwon([own]);
    assert Adopted([own], root) == [own];
  }

  /** Revealing the board reached by `[4, 0]` and then hiding the board reached by `[4]`
      prunes both, leaving an empty root that yields nothing. */
  lemma {:induction false} RevealThenHideBranch()
    ensures var t := Hide(Reveal(EmptyAt(Initial), RevealedPosition([4, 0], None)), [4]);
      t == EmptyAt(Initial) && Revealed(t) == []
  {
    var t1 := Reveal(EmptyAt(Initial), RevealedPosition([4, 0], None));
    assert t1.kids.Keys == {4};
    var t := Hide(t1, [4]);
    assert t.kids == map[];
    EmptyRootYieldsNothing();
  }
}
