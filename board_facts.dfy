/**
 * What the board operations of module Boards promise, stated over whole boards:
 * which possibilities `showPosition` opens, which children it forwards to, what
 * `showPossibility` removes and what `play` leaves behind.
 */
module BoardFacts {
  import opened Wrappers
  import opened GameStates
  import opened RevealedPositions
  import opened Themes
  import opened Boards

  /** The possibilities the opening loop keeps are exactly those no record relates to. */
  lemma {:induction false} KeptExactly(ps: seq<Possibility>, sp: seq<RevealedPosition>)
    ensures forall p :: p in Kept(ps, sp) <==> p in ps && FindIndex(sp, p.gameState) == -1
    decreases |ps|
  {
    if ps != [] {
      var front, last := ps[..|ps| - 1], ps[|ps| - 1];
      KeptExactly(front, sp);
      assert ps == front + [last];
    }
  }

  /** The possibilities the opening loop opens are exactly those some record relates to. */
  lemma {:induction false} OpenedExactly(ps: seq<Possibility>, sp: seq<RevealedPosition>)
    ensures forall p :: p in Opened(ps, sp) <==> p in ps && FindIndex(sp, p.gameState) != -1
    decreases |ps|
  {
    if ps != [] {
      var front, last := ps[..|ps| - 1], ps[|ps| - 1];
      OpenedExactly(front, sp);
      assert ps == front + [last];
    }
  }

  /** Kept and opened possibilities together are all of them, each once. */
  lemma {:induction false} KeptOpenedPartition(ps: seq<Possibility>, sp: seq<RevealedPosition>)
    ensures multiset(Kept(ps, sp)) + multiset(Opened(ps, sp)) == multiset(ps)
    decreases |ps|
  {
    if ps != [] {
      var front, last := ps[..|ps| - 1], ps[|ps| - 1];
      KeptOpenedPartition(front, sp);
      assert ps == front + [last];
    }
  }

  /** `play(p)`: `p` leaves the list, every other possibility stays, the children
      already there keep their states, and the new last child is the board for `p`'s
      state. */
  lemma PlayEffects(b: Board, p: Possibility, fw: WinnerFinder)
    requires WellFormed(b) && p in b.possibilities
    ensures var res := PlaySpec(b, p, fw);
      res.gameState == b.gameState && res.marks == b.marks && res.isWin == b.isWin &&
      (forall q :: q in res.possibilities <==> q in b.possibilities && q != p) &&
      |res.kids| == |b.kids| + 1 && res.kids[|b.kids|].gameState == p.gameState &&
      (forall i :: 0 <= i < |b.kids| ==> res.kids[i].gameState == b.kids[i].gameState)
  {
    RemovedExactly(b.possibilities, p);
    var w := fw(p.gameState);
    var kids := b.kids + [Opening(p, b.theme, fw)];
    var b1 := b.(possibilities := RemoveAt(b.possibilities, IndexOf(b.possibilities, p)), kids := kids);
    assert PlaySpec(b, p, fw) == if w.Some? then SetThemeSpec(b1.(winner := w.value.player), b.theme) else b1;
    assert forall i :: 0 <= i < |b.kids| ==> kids[i] == b.kids[i];
  }

  /** The winner and theme after `play(p)`: set from `findWinner` when the new state
      is won, and otherwise the new board is opened on the unchanged theme. */
  lemma PlayWinner(b: Board, p: Possibility, fw: WinnerFinder)
    requires WellFormed(b) && p in b.possibilities
    ensures var res := PlaySpec(b, p, fw);
      var w := fw(p.gameState);
      (w.Some? ==> res.winner == w.value.player &&
                   res.theme == ChooseTheme(b.gameState, w.value.player, b.isWin, b.theme)) &&
      (w.None? ==> res.winner == b.winner && res.theme == b.theme &&
                   res.kids == b.kids + [Opening(p, b.theme, fw)])
  {
  }

  /** `showPosition(r)`: the winner is set only when the record's winner state relates to
      the board; exactly the possibilities some split record relates to are opened; every
      child that existed before is kept in place, and is shown the first related record
      when there is one; the opened boards come after them, on the board's theme, and are
      not shown anything. */
  lemma ShowEffects(b: Board, r: RevealedPosition, split: Splitter, fw: WinnerFinder)
    requires WellFormed(b)
    ensures var res := ShowSpec(b, r, split, fw);
      res.gameState == b.gameState &&
      res.winner == (if SetsWinner(b, r) then r.winner.value.player else b.winner)
    ensures var res := ShowSpec(b, r, split, fw);
      var sp := split(r, b.gameState);
      forall q :: q in res.possibilities <==> q in b.possibilities && FindIndex(sp, q.gameState) == -1
    ensures var res := ShowSpec(b, r, split, fw);
      var sp := split(r, b.gameState);
      var b1 := WinnerStep(b, r);
      |res.kids| == |b1.kids| + |Opened(b.possibilities, sp)| &&
      (forall i :: 0 <= i < |b1.kids| && FindIndex(sp, b1.kids[i].gameState) == -1 ==> res.kids[i] == b1.kids[i]) &&
      (forall i :: 0 <= i < |b1.kids| && FindIndex(sp, b1.kids[i].gameState) != -1 ==>
         res.kids[i] == ShowSpec(b1.kids[i], sp[FindIndex(sp, b1.kids[i].gameState)], split, fw))
    ensures var res := ShowSpec(b, r, split, fw);
      var sp := split(r, b.gameState);
      var b1 := WinnerStep(b, r);
      var toOpen := Opened(b.possibilities, sp);
      |res.kids| == |b1.kids| + |toOpen| &&
      forall j :: 0 <= j < |toOpen| ==>
        toOpen[j] in b.possibilities && FindIndex(sp, toOpen[j].gameState) != -1 &&
        res.kids[|b1.kids| + j] == Opening(toOpen[j], b1.theme, fw)
  {
    var sp := split(r, b.gameState);
    KeptExactly(b.possibilities, sp);
    OpenedExactly(b.possibilities, sp);
    ForwardAllShape(WinnerStep(b, r), sp, split, fw);
  }
}
