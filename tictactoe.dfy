/**
 * A board object: the bookkeeping of `TicTacToe` with drawing stripped away.
 * Every board owns its child boards; `model` is the board value of the whole
 * subtree, and each method is proved to change it as the matching function of
 * module Boards says.
 */
module TicTacToes {
  import opened Wrappers
  import opened GameStates
  import opened RevealedPositions
  import opened Themes
  import opened Boards

  /** `addToRevealedPosition`, whose rules are not part of this model. */
  type Combiner = (RevealedPosition, RevealedPosition, seq<RevealedPosition>) -> RevealedPosition

  /** `c` is a valid child board whose value is `kid` and which finds winners with `fw`. */
  ghost predicate Child(c: TicTacToe, kid: Board, fw: WinnerFinder)
    reads c, c.Repr
    decreases c.Repr, 2
  {
    c.Valid() && c.model == kid && c.findWinner == fw
  }

  /** `kids` are valid boards with the values `models`, all below state `s`, owning
      disjoint parts of `NR`: the boards a `showPosition` or `play` is about to append. */
  ghost predicate Batch(kids: seq<TicTacToe>, models: seq<Board>, NR: set<object>, s: GameState, fw: WinnerFinder)
    reads NR
  {
    |kids| == |models| &&
    (forall j :: 0 <= j < |kids| ==>
      kids[j] in NR && kids[j].Repr <= NR && Child(kids[j], models[j], fw) && s < models[j].gameState) &&
    (forall j, k :: 0 <= j < k < |kids| ==> kids[j].Repr !! kids[k].Repr)
  }

  /** One more board, apart from the batch, extends it. */
  lemma BatchSnoc(kids: seq<TicTacToe>, models: seq<Board>, NR: set<object>, s: GameState, fw: WinnerFinder,
                  c: TicTacToe, m: Board)
    requires Batch(kids, models, NR, s, fw) && Child(c, m, fw) && s < m.gameState && c.Repr !! NR
    ensures Batch(kids + [c], models + [m], NR + c.Repr, s, fw)
  {
    var kids', models' := kids + [c], models + [m];
    forall j | 0 <= j < |kids'|
      ensures kids'[j] in NR + c.Repr && kids'[j].Repr <= NR + c.Repr && Child(kids'[j], models'[j], fw)
    {
      if j < |kids| { assert kids'[j] == kids[j] && models'[j] == models[j]; }
    }
    forall j, k | 0 <= j < k < |kids'| ensures kids'[j].Repr !! kids'[k].Repr {
      if k < |kids| { assert kids'[j] == kids[j] && kids'[k] == kids[k]; }
      else { assert kids'[j] == kids[j] && kids[j].Repr <= NR; }
    }
  }

  class TicTacToe {
    const gameState: GameState
    const findWinner: WinnerFinder
    const marks: seq<Mark>
    var possibilities: seq<Possibility>
    var ticTacToes: seq<TicTacToe>
    var winner: Player
    var isWin: bool
    var theme: Theme

    ghost var model: Board
    ghost var Repr: set<object>

    /** The fields agree with `model`, the children own disjoint parts of `Repr`, and
        each child is valid with the matching child value. */
    ghost predicate Valid()
      reads this, Repr
      ensures Valid() ==> this in Repr && WellFormed(model) && model.gameState == gameState
      decreases Repr, 1
    {
      this in Repr &&
      model.gameState == gameState && model.possibilities == possibilities && model.marks == marks &&
      model.winner == winner && model.isWin == isWin && model.theme == theme &&
      |model.kids| == |ticTacToes| &&
      (forall i :: 0 <= i < |ticTacToes| ==>
        ticTacToes[i] in Repr && ticTacToes[i].Repr <= Repr && this !in ticTacToes[i].Repr) &&
      (forall i, j :: 0 <= i < j < |ticTacToes| ==> ticTacToes[i].Repr !! ticTacToes[j].Repr) &&
      (forall i :: 0 <= i < |ticTacToes| ==> Child(ticTacToes[i], model.kids[i], findWinner)) &&
      WellFormed(model)
    }

    /** `Valid()` for a board whose child `i` was just changed: the child is valid on its
        own and still apart from its siblings, but `Repr` and `model` are not yet updated. */
    ghost predicate ValidBelow(i: nat, child: TicTacToe)
      reads this, Repr, child, child.Repr
    {
      this in Repr && i < |ticTacToes| && ticTacToes[i] == child &&
      model.gameState == gameState && model.possibilities == possibilities && model.marks == marks &&
      model.winner == winner && model.isWin == isWin && model.theme == theme &&
      |model.kids| == |ticTacToes| &&
      child.Valid() && child.findWinner == findWinner && this !in child.Repr &&
      gameState < child.model.gameState &&
      (forall j :: 0 <= j < |ticTacToes| && j != i ==>
        ticTacToes[j] in Repr && ticTacToes[j].Repr <= Repr && this !in ticTacToes[j].Repr &&
        ticTacToes[j].Repr !! child.Repr) &&
      (forall j, k :: 0 <= j < k < |ticTacToes| && j != i && k != i ==> ticTacToes[j].Repr !! ticTacToes[k].Repr) &&
      (forall j :: 0 <= j < |ticTacToes| && j != i ==> Child(ticTacToes[j], model.kids[j], findWinner)) &&
      WellFormed(model)
    }

    /** The board for `gameState`, on `theme` (or its winner theme when `winner` is given). */
    constructor (theme: Theme, gameState: GameState, winner: Option<Winner>, findWinner: WinnerFinder)
      ensures Valid() && fresh(Repr)
      ensures model == NewBoard(gameState, theme, winner) && this.findWinner == findWinner
      ensures ticTacToes == []
    {
      var ps, ms := Cells(gameState, winner);
      var b := NewBoard(gameState, theme, winner);
      this.gameState := gameState;
      this.findWinner := findWinner;
      this.marks := ms;
      this.possibilities := ps;
      this.ticTacToes := [];
      this.winner := b.winner;
      this.isWin := winner.Some?;
      this.theme := b.theme;
      this.model := b;
      this.Repr := {this};
    }

    /** The constructor's pass over the nine cells: an empty cell of an unwon board becomes
        a possibility, an occupied cell a mark. */
    static method Cells(gameState: GameState, winner: Option<Winner>) returns (ps: seq<Possibility>, ms: seq<Mark>)
      ensures ps == if winner.Some? then [] else OpenUpTo(gameState, 9)
      ensures ms == MarksUpTo(gameState, 9)
    {
      var playersAtPositions := PlayersAtPositions(gameState);
      ps, ms := [], [];
      for position := 0 to 9
        invariant ps == if winner.Some? then [] else OpenUpTo(gameState, position)
        invariant ms == MarksUpTo(gameState, position)
      {
        var playerAtCell := playersAtPositions[position];
        assert playerAtCell == PlayerAt(gameState, position);
        CellStep(gameState, position);
        if playerAtCell == NoPlayer {
          if winner.None? {
            ps := ps + [Possibility(PlayPosition(gameState, position), position)];
          }
        } else {
          ms := ms + [if playerAtCell == X then XMark(position) else OMark(position)];
        }
      }
    }

    /** Folds a changed child back in: `Repr` takes in the child's new objects and `model`
        the child's new value. */
    ghost method Adopt(i: nat, child: TicTacToe)
      requires ValidBelow(i, child)
      modifies this
      ensures Valid() && Repr == old(Repr) + child.Repr && ticTacToes == old(ticTacToes)
      ensures model == old(model).(kids := old(model.kids)[i := child.model])
    {
      KidReplaced(model, i, child.model);
      Repr, model := Repr + child.Repr, model.(kids := model.kids[i := child.model]);
    }

    /** `setTheme(t)`: the board takes the theme `ChooseTheme` picks and passes it on to
        every child, in order. */
    method SetTheme(t: Theme)
      requires Valid()
      modifies Repr
      ensures Valid() && Repr == old(Repr) && ticTacToes == old(ticTacToes)
      ensures model == SetThemeSpec(old(model), t)
      decreases Repr, 2
    {
      var newTheme := ChooseTheme(gameState, winner, isWin, t);
      ghost var goal := SetThemeSpec(model, t).kids;
      theme, model := newTheme, model.(theme := newTheme);
      ThemeChildren(newTheme, goal);
    }

    /** The loop of `setTheme`: child by child, each takes theme `t`; `goal` is what the
        children become. */
    method ThemeChildren(t: Theme, ghost goal: seq<Board>)
      requires Valid() && |goal| == |model.kids|
      requires forall j :: 0 <= j < |goal| ==> goal[j] == SetThemeSpec(model.kids[j], t)
      modifies Repr
      ensures Valid() && Repr == old(Repr) && ticTacToes == old(ticTacToes)
      ensures model == old(model).(kids := goal)
      decreases Repr, 1
    {
      ghost var m0, R, kids := model, Repr, ticTacToes;
      assert ThemedUpTo(0, m0, goal, R, kids) by {
        assert goal[..0] + m0.kids[0..] == m0.kids;
      }
      for i := 0 to |ticTacToes|
        invariant ThemedUpTo(i, m0, goal, R, kids)
      {
        SetChildTheme(i, t, m0, goal, R, kids);
      }
      assert goal[..|goal|] + m0.kids[|goal|..] == goal;
    }

    /** The invariant of that loop: the children before `i` have taken their theme. */
    ghost predicate ThemedUpTo(i: nat, m0: Board, goal: seq<Board>, R: set<object>, kids: seq<TicTacToe>)
      reads this, Repr
    {
      Valid() && Repr == R && ticTacToes == kids && i <= |kids| == |m0.kids| == |goal| &&
      model == m0.(kids := goal[..i] + m0.kids[i..])
    }

    /** Child `i` takes theme `t`: the children before `i + 1` are now those of `goal`. */
    method SetChildTheme(i: nat, t: Theme, ghost m0: Board, ghost goal: seq<Board>, ghost R: set<object>, ghost kids: seq<TicTacToe>)
      requires ThemedUpTo(i, m0, goal, R, kids) && i < |kids| && goal[i] == SetThemeSpec(m0.kids[i], t)
      modifies Repr
      ensures ThemedUpTo(i + 1, m0, goal, R, kids)
      decreases Repr, 0
    {
      assert Valid() && model == m0.(kids := goal[..i] + m0.kids[i..]);
      var child := ticTacToes[i];
      assert model.kids[i] == m0.kids[i];
      assert Child(child, m0.kids[i], findWinner);
      child.SetTheme(t);
      Adopt(i, child);
      BoundaryStep(goal, m0.kids, i);
    }

    /** `setWinner(player)`. */
    method SetWinner(player: Player)
      requires Valid()
      modifies Repr
      ensures Valid() && Repr == old(Repr) && ticTacToes == old(ticTacToes)
      ensures model == SetWinnerSpec(old(model), player)
    {
      winner, model := player, model.(winner := player);
      SetTheme(theme);
    }

    /** `showPossibility(p)`: `p` leaves the list of possibilities and a new board, on
        the current theme, is made for the state it reaches. The new board is not yet a
        child. */
    method ShowPossibility(p: Possibility) returns (tictactoe: TicTacToe, w: Option<Winner>)
      requires Valid()
      modifies this
      ensures Valid() && Repr == old(Repr) && ticTacToes == old(ticTacToes)
      ensures model == old(model).(possibilities := SpliceOne(old(possibilities), IndexOf(old(possibilities), p)))
      ensures w == findWinner(p.gameState)
      ensures fresh(tictactoe.Repr) && Child(tictactoe, Opening(p, theme, findWinner), findWinner)
    {
      RemovePossibility(p);
      ghost var shown := model;
      w := findWinner(p.gameState);
      tictactoe := new TicTacToe(theme, p.gameState, w, findWinner);
      assert model == shown && Valid();
    }

    /** `possibilities.splice(possibilities.indexOf(p), 1)`: when `p` is not in the list,
        the index is -1 and the last possibility is taken out instead. */
    method RemovePossibility(p: Possibility)
      requires Valid()
      modifies this
      ensures Valid() && Repr == old(Repr) && ticTacToes == old(ticTacToes)
      ensures model == old(model).(possibilities := SpliceOne(old(possibilities), IndexOf(old(possibilities), p)))
    {
      var index := IndexOf(possibilities, p);
      if possibilities == [] {
        return;
      }
      var at := if index == -1 then |possibilities| - 1 else index;
      RemoveAtKeeps(possibilities, at);
      Rebuilt(model, RemoveAt(possibilities, at), model.kids);
      possibilities, model := RemoveAt(possibilities, at), model.(possibilities := RemoveAt(possibilities, at));
    }

    /** `getRevealedPosition()`. */
    function GetRevealedPosition(): (r: RevealedPosition)
      requires Valid()
      reads this, Repr
      ensures r == RevealedOf(model)
    {
      RevealedPosition(gameState, if winner != NoPlayer then Some(WinnerRecord(winner, gameState)) else None)
    }

    /** `notifyRevealedPosition(position)`: the record combined with this board's own and
        its children's, which the board hands to its parent. */
    method NotifyRevealedPosition(position: RevealedPosition, add: Combiner) returns (combined: RevealedPosition)
      requires Valid()
      ensures combined == add(position, RevealedOf(model), KidsRevealed(model))
    {
      var revealed: seq<RevealedPosition> := [];
      for i := 0 to |ticTacToes|
        invariant |revealed| == i
        invariant forall j :: 0 <= j < i ==> revealed[j] == RevealedOf(model.kids[j])
      {
        var child := ticTacToes[i];
        assert Child(child, model.kids[i], findWinner);
        revealed := revealed + [child.GetRevealedPosition()];
      }
      assert revealed == KidsRevealed(model);
      combined := add(position, GetRevealedPosition(), revealed);
    }

    /** Appends boards made by `ShowPossibility` as children. */
    method AppendChildren(newKids: seq<TicTacToe>, ghost models: seq<Board>, ghost NR: set<object>)
      requires Valid() && NR !! Repr && Batch(newKids, models, NR, gameState, findWinner)
      modifies this
      ensures Valid() && Repr == old(Repr) + NR && ticTacToes == old(ticTacToes) + newKids
      ensures model == old(model).(kids := old(model.kids) + models)
    {
      forall j | 0 <= j < |newKids| ensures WellFormed(models[j]) && gameState < models[j].gameState {
        assert Child(newKids[j], models[j], findWinner);
      }
      Below(gameState, model.kids, models);
      Rebuilt(model, possibilities, model.kids + models);
      ticTacToes, Repr, model := ticTacToes + newKids, Repr + NR, model.(kids := model.kids + models);
    }

    /** The opening loop of `showPosition`: every possibility, in a snapshot of the list,
        that some record of `sp` relates to is shown. Returns the boards made, which are
        not yet children. */
    method OpenPossibilities(sp: seq<RevealedPosition>) returns (newKids: seq<TicTacToe>, ghost models: seq<Board>, ghost NR: set<object>)
      requires Valid()
      modifies this
      ensures Valid() && Repr == old(Repr) && ticTacToes == old(ticTacToes)
      ensures model == old(model).(possibilities := Kept(old(possibilities), sp))
      ensures models == Openings(Opened(old(possibilities), sp), theme, findWinner)
      ensures fresh(NR) && Batch(newKids, models, NR, gameState, findWinner)
    {
      var snapshot := possibilities;
      ghost var m0 := model;
      newKids, models, NR := [], [], {};
      for k := 0 to |snapshot|
        invariant Valid() && Repr == old(Repr) && ticTacToes == old(ticTacToes)
        invariant model == m0.(possibilities := Kept(snapshot[..k], sp) + snapshot[k..])
        invariant models == Openings(Opened(snapshot[..k], sp), theme, findWinner)
        invariant fresh(NR) && Batch(newKids, models, NR, gameState, findWinner)
      {
        newKids, models, NR := OpenStep(snapshot, k, sp, newKids, models, NR);
      }
      assert snapshot[..|snapshot|] == snapshot;
    }

    /** Step `k` of the opening loop: possibility `k` of the snapshot is shown when some
        record relates to it, and skipped otherwise. */
    method OpenStep(snapshot: seq<Possibility>, k: nat, sp: seq<RevealedPosition>,
                    kids: seq<TicTacToe>, ghost models: seq<Board>, ghost NR: set<object>)
      returns (kids': seq<TicTacToe>, ghost models': seq<Board>, ghost NR': set<object>)
      requires Valid() && Distinct(snapshot) && k < |snapshot|
      requires possibilities == Kept(snapshot[..k], sp) + snapshot[k..]
      requires models == Openings(Opened(snapshot[..k], sp), theme, findWinner)
      requires this !in NR && Batch(kids, models, NR, gameState, findWinner)
      modifies this
      ensures Valid() && Repr == old(Repr) && ticTacToes == old(ticTacToes)
      ensures possibilities == Kept(snapshot[..k + 1], sp) + snapshot[k + 1..]
      ensures model == old(model).(possibilities := possibilities)
      ensures models' == Openings(Opened(snapshot[..k + 1], sp), theme, findWinner)
      ensures Batch(kids', models', NR', gameState, findWinner)
      ensures NR <= NR' && fresh(NR' - NR)
    {
      var possibility := snapshot[k];
      SnapshotStep(snapshot, k, sp);
      OpenedStep(snapshot, k, sp);
      if FindIndex(sp, possibility.gameState) != -1 {
        OpeningsSnoc(Opened(snapshot[..k], sp), possibility, theme, findWinner);
        kids', models', NR' := ShowIntoBatch(possibility, kids, models, NR);
      } else {
        kids', models', NR' := kids, models, NR;
      }
    }

    /** `showPossibility(p)` inside the opening loop: the new board joins the batch. */
    method ShowIntoBatch(p: Possibility, kids: seq<TicTacToe>, ghost models: seq<Board>, ghost NR: set<object>)
      returns (kids': seq<TicTacToe>, ghost models': seq<Board>, ghost NR': set<object>)
      requires Valid() && p in possibilities && this !in NR && Batch(kids, models, NR, gameState, findWinner)
      modifies this
      ensures Valid() && Repr == old(Repr) && ticTacToes == old(ticTacToes)
      ensures model == old(model).(possibilities := RemoveAt(old(possibilities), IndexOf(old(possibilities), p)))
      ensures Batch(kids', models', NR', gameState, findWinner)
      ensures |kids'| == |kids| + 1 && kids'[..|kids|] == kids
      ensures models' == models + [Opening(p, theme, findWinner)]
      ensures NR <= NR' && fresh(NR' - NR)
    {
      label before:
      var tictactoe, _ := ShowPossibility(p);
      assert unchanged@before(NR);
      BatchSnoc(kids, models, NR, gameState, findWinner, tictactoe, Opening(p, theme, findWinner));
      kids', models', NR' := kids + [tictactoe], models + [Opening(p, theme, findWinner)], NR + tictactoe.Repr;
    }

    /** The forwarding loop of `showPosition`: each child that existed before the call is
        shown the first record of `sp` related to it. */
    method ForwardToChildren(sp: seq<RevealedPosition>, split: Splitter)
      requires Valid()
      modifies Repr
      ensures Valid() && fresh(Repr - old(Repr)) && ticTacToes == old(ticTacToes)
      ensures model == old(model).(kids := ForwardAll(old(model), sp, split, findWinner))
      decreases Unplayed(gameState), 4
    {
      ghost var goal := ForwardAll(model, sp, split, findWinner);
      ForwardAllShape(model, sp, split, findWinner);
      ForwardLoop(sp, split, goal);
    }

    /** The loop of `ForwardToChildren`; `goal` is what the children become. */
    method ForwardLoop(sp: seq<RevealedPosition>, split: Splitter, ghost goal: seq<Board>)
      requires Valid() && |goal| == |model.kids|
      requires forall j :: 0 <= j < |goal| ==> goal[j] == ForwardSpec(model.kids[j], sp, split, findWinner)
      modifies Repr
      ensures Valid() && fresh(Repr - old(Repr)) && ticTacToes == old(ticTacToes)
      ensures model == old(model).(kids := goal)
      decreases Unplayed(gameState), 3
    {
      ghost var m0, kids := model, ticTacToes;
      assert ForwardedUpTo(0, m0, goal, kids) by {
        assert goal[..0] + m0.kids[0..] == m0.kids;
      }
      for i := 0 to |ticTacToes|
        invariant ForwardedUpTo(i, m0, goal, kids) && fresh(Repr - old(Repr))
      {
        ForwardStep(i, sp, split, m0, goal, kids);
      }
      assert goal[..|goal|] + m0.kids[|goal|..] == goal;
    }

    /** The invariant of that loop: the children before `i` have been forwarded to. */
    ghost predicate ForwardedUpTo(i: nat, m0: Board, goal: seq<Board>, kids: seq<TicTacToe>)
      reads this, Repr
    {
      Valid() && ticTacToes == kids && i <= |kids| == |m0.kids| == |goal| && WellFormed(m0) &&
      model == m0.(kids := goal[..i] + m0.kids[i..])
    }

    /** One round of that loop. */
    method ForwardStep(i: nat, sp: seq<RevealedPosition>, split: Splitter, ghost m0: Board, ghost goal: seq<Board>,
                       ghost kids: seq<TicTacToe>)
      requires ForwardedUpTo(i, m0, goal, kids) && i < |kids|
      requires goal[i] == ForwardSpec(m0.kids[i], sp, split, findWinner)
      modifies Repr
      ensures ForwardedUpTo(i + 1, m0, goal, kids) && fresh(Repr - old(Repr))
      decreases Unplayed(gameState), 2
    {
      assert Valid() && model == m0.(kids := goal[..i] + m0.kids[i..]);
      assert model.kids[i] == m0.kids[i];
      ForwardChild(i, sp, split);
      BoundaryStep(goal, m0.kids, i);
    }

    /** Child `i` is shown the first record of `sp` related to it, if there is one. */
    method ForwardChild(i: nat, sp: seq<RevealedPosition>, split: Splitter)
      requires Valid() && i < |ticTacToes|
      modifies Repr
      ensures Valid() && fresh(Repr - old(Repr)) && ticTacToes == old(ticTacToes)
      ensures model == old(model).(kids := old(model.kids)[i := ForwardSpec(old(model.kids[i]), sp, split, findWinner)])
      decreases Unplayed(gameState), 1
    {
      var child := ticTacToes[i];
      assert Child(child, model.kids[i], findWinner);
      var found := FindIndex(sp, child.gameState);
      if found != -1 {
        UnplayedShrinks(gameState, child.gameState);
        ShowChild(i, sp[found], split);
      } else {
        assert model.kids[i := model.kids[i]] == model.kids;
      }
    }

    /** Child `i` is shown record `r`. */
    method ShowChild(i: nat, r: RevealedPosition, split: Splitter)
      requires Valid() && i < |ticTacToes| && Unplayed(ticTacToes[i].gameState) < Unplayed(gameState)
      modifies Repr
      ensures Valid() && fresh(Repr - old(Repr)) && ticTacToes == old(ticTacToes)
      ensures model == old(model).(kids := old(model.kids)[i := ShowSpec(old(model.kids[i]), r, split, findWinner)])
      decreases Unplayed(gameState), 0
    {
      var child := ticTacToes[i];
      assert Child(child, model.kids[i], findWinner);
      child.ShowPosition(r, split);
      Adopt(i, child);
    }

    /** `showPosition(position)`, with `splitRevealedPosition` passed in as `split`. */
    method ShowPosition(position: RevealedPosition, split: Splitter)
      requires Valid()
      modifies Repr
      ensures Valid() && fresh(Repr - old(Repr))
      ensures model == ShowSpec(old(model), position, split, findWinner)
      decreases Unplayed(gameState), 6
    {
      var w := position.winner;
      if w.Some? && IndexOfPredecessor(gameState, w.value.gameState) > -1 {
        SetWinner(w.value.player);
      }
      assert model == WinnerStep(old(model), position);
      var sp := split(position, gameState);
      ShowSplit(sp, split);
      ShowSpecIs(old(model), position, split, findWinner, model);
    }

    /** The two loops of `showPosition` and the appending of the opened boards, once the
        record is split into `sp`. */
    method ShowSplit(sp: seq<RevealedPosition>, split: Splitter)
      requires Valid()
      modifies Repr
      ensures Valid() && fresh(Repr - old(Repr))
      ensures model == old(model).(possibilities := Kept(old(model).possibilities, sp),
                                   kids := ForwardAll(old(model), sp, split, findWinner) +
                                           Openings(Opened(old(model).possibilities, sp), old(model).theme, findWinner))
      decreases Unplayed(gameState), 5
    {
      var newKids, models, NR := OpenPossibilities(sp);
      ForwardAllKids(old(model), Kept(old(model).possibilities, sp), sp, split, findWinner);
      ForwardToChildren(sp, split);
      AppendChildren(newKids, models, NR);
    }

    /** `play(p)`: the possibility is shown and becomes the last child; when its state has
        a winner this board takes that winner. Returns the record handed to the parent. */
    method Play(p: Possibility) returns (notice: RevealedPosition)
      requires Valid() && p in possibilities
      modifies Repr
      ensures Valid() && fresh(Repr - old(Repr))
      ensures model == PlaySpec(old(model), p, findWinner)
      ensures notice.gameState == p.gameState
      ensures notice.winner.Some? <==> findWinner(p.gameState).Some?
      ensures notice.winner.Some? ==>
        notice.winner.value == WinnerRecord(findWinner(p.gameState).value.player, gameState)
    {
      var w := ShowAndAppend(p);
      if w.Some? {
        SetWinner(w.value.player);
      }
      notice := RevealedPosition(p.gameState, if w.Some? then Some(WinnerRecord(w.value.player, gameState)) else None);
    }

    /** The first two steps of `play(p)`: `p` is shown and its board becomes the last child. */
    method ShowAndAppend(p: Possibility) returns (w: Option<Winner>)
      requires Valid() && p in possibilities
      modifies this
      ensures Valid() && fresh(Repr - old(Repr))
      ensures model == old(model).(possibilities := RemoveAt(old(possibilities), IndexOf(old(possibilities), p)),
                                   kids := old(model.kids) + [Opening(p, theme, findWinner)])
      ensures w == findWinner(p.gameState)
    {
      var tictactoe;
      tictactoe, w := ShowPossibility(p);
      BatchSnoc([], [], {}, gameState, findWinner, tictactoe, tictactoe.model);
      AppendChildren([tictactoe], [tictactoe.model], tictactoe.Repr);
    }
  }
}
