/**
 * The bookkeeping of a tic-tac-toe board as a value: its open cells
 * (possibilities), its marks, its winner, its theme and its child boards.
 * The functions here say what the board operations do to that value;
 * the `TicTacToe` class is proved against them.
 */
module Boards {
  import opened Wrappers
  import opened GameStates
  import opened RevealedPositions
  import opened Themes

  /** What `findWinner` reports about a won state; the winning line, used only for drawing, is left out. */
  datatype Winner = Winner(player: Player)

  /** An open cell of a board, remembered with the state that playing it reaches. */
  datatype Possibility = Possibility(gameState: GameState, position: Position)

  /** A drawn mark on an occupied cell. */
  datatype Mark = XMark(cell: Position) | OMark(cell: Position)

  /** One board. `winner == NoPlayer` stands for an unset winner: every use of the field
      treats `undefined` and 0 alike. */
  datatype Board = Board(
    gameState: GameState,
    possibilities: seq<Possibility>,
    marks: seq<Mark>,
    winner: Player,
    isWin: bool,
    theme: Theme,
    kids: seq<Board>)

  /** `gameState.findWinner()`, whose rules are not part of this model. */
  type WinnerFinder = GameState -> Option<Winner>

  /** `splitRevealedPosition`, whose rules are not part of this model. */
  type Splitter = (RevealedPosition, GameState) -> seq<RevealedPosition>

  /** `p` is the possibility of playing an empty cell of `s`. */
  predicate OpensFrom(s: GameState, p: Possibility) {
    p.position !in s && p.gameState == PlayPosition(s, p.position)
  }

  /** The shape every board keeps: distinct possibilities, each one an empty cell of the
      board, and child boards strictly below the board's own state. */
  ghost predicate WellFormed(b: Board)
    decreases b
  {
    Distinct(b.possibilities) &&
    (forall p :: p in b.possibilities ==> OpensFrom(b.gameState, p)) &&
    (forall i :: 0 <= i < |b.kids| ==> b.gameState < b.kids[i].gameState && WellFormed(b.kids[i]))
  }

  /** A board keeps its shape when its possibilities and children are replaced by ones
      that have it. */
  lemma Rebuilt(b: Board, ps: seq<Possibility>, kids: seq<Board>)
    requires Distinct(ps) && forall p :: p in ps ==> OpensFrom(b.gameState, p)
    requires forall i :: 0 <= i < |kids| ==> b.gameState < kids[i].gameState && WellFormed(kids[i])
    ensures WellFormed(b.(possibilities := ps, kids := kids))
  {
  }

  /** Two lists of well-formed children below `s` make one. */
  lemma Below(s: GameState, a: seq<Board>, c: seq<Board>)
    requires forall i :: 0 <= i < |a| ==> s < a[i].gameState && WellFormed(a[i])
    requires forall i :: 0 <= i < |c| ==> s < c[i].gameState && WellFormed(c[i])
    ensures forall i :: 0 <= i < |a + c| ==> s < (a + c)[i].gameState && WellFormed((a + c)[i])
  {
    forall i | 0 <= i < |a + c| ensures s < (a + c)[i].gameState && WellFormed((a + c)[i]) {
      if i < |a| { assert (a + c)[i] == a[i]; } else { assert (a + c)[i] == c[i - |a|]; }
    }
  }

  /** Replacing one child by a well-formed board below `b` keeps `b` well formed. */
  lemma KidReplaced(b: Board, i: nat, k: Board)
    requires WellFormed(b) && i < |b.kids| && WellFormed(k) && b.gameState < k.gameState
    ensures WellFormed(b.(kids := b.kids[i := k]))
  {
  }

  // ---------------------------------------------------------------------------------------
  // The constructor's partition of the nine cells

  /** The possibilities the constructor creates for the first `n` cells of an unwon board. */
  function OpenUpTo(s: GameState, n: nat): (ps: seq<Possibility>)
    requires n <= 9
    ensures forall p :: p in ps ==> OpensFrom(s, p) && p.position < n
    ensures forall q: Position :: q < n && q !in s ==> Possibility(PlayPosition(s, q), q) in ps
    ensures forall i, j :: 0 <= i < j < |ps| ==> ps[i].position < ps[j].position
    decreases n
  {
    if n == 0 then []
    else
      var q: Position := n - 1;
      OpenUpTo(s, n - 1) + (if q !in s then [Possibility(PlayPosition(s, q), q)] else [])
  }

  /** The mark drawn on cell `q`: an X for a cell X occupies, an O for any other occupied cell. */
  function MarkFor(s: GameState, q: Position): (m: Option<Mark>)
    ensures m.None? <==> q !in s
    ensures m.Some? ==> m.value.cell == q && (m.value.XMark? <==> PlayerAt(s, q) == X)
  {
    var p := PlayerAt(s, q);
    if p == NoPlayer then None else if p == X then Some(XMark(q)) else Some(OMark(q))
  }

  /** The marks the constructor creates for the first `n` cells. */
  function MarksUpTo(s: GameState, n: nat): (ms: seq<Mark>)
    requires n <= 9
    ensures forall m :: m in ms ==> m.cell < n && MarkFor(s, m.cell) == Some(m)
    ensures forall q: Position :: q < n && q in s ==> MarkFor(s, q).value in ms
    ensures forall i, j :: 0 <= i < j < |ms| ==> ms[i].cell < ms[j].cell
    decreases n
  {
    if n == 0 then []
    else
      var q: Position := n - 1;
      var m := MarkFor(s, q);
      MarksUpTo(s, n - 1) + (if m.Some? then [m.value] else [])
  }

  /** Cell `q` in the constructor's pass: an empty cell adds its possibility, an occupied
      one its mark. */
  lemma CellStep(s: GameState, q: Position)
    ensures OpenUpTo(s, q + 1) ==
      OpenUpTo(s, q) + (if PlayerAt(s, q) == NoPlayer then [Possibility(PlayPosition(s, q), q)] else [])
    ensures MarksUpTo(s, q + 1) ==
      MarksUpTo(s, q) + (if PlayerAt(s, q) == NoPlayer then []
                         else [if PlayerAt(s, q) == X then XMark(q) else OMark(q)])
  {
  }

  lemma {:induction false} IncreasingDistinct(ps: seq<Possibility>)
    requires forall i, j :: 0 <= i < j < |ps| ==> ps[i].position < ps[j].position
    ensures Distinct(ps)
  {
    forall i, j | 0 <= i < j < |ps| ensures ps[i] != ps[j] {
      assert ps[i].position < ps[j].position;
    }
  }

  /** The board the constructor builds: no children yet, and well formed. */
  function NewBoard(s: GameState, theme: Theme, w: Option<Winner>): (b: Board)
    ensures WellFormed(b) && b.gameState == s && b.kids == []
  {
    var ps := if w.Some? then [] else OpenUpTo(s, 9);
    IncreasingDistinct(ps);
    Board(s, ps, MarksUpTo(s, 9),
          if w.Some? then w.value.player else NoPlayer,
          w.Some?,
          if w.Some? then WinnerOf(theme) else theme,
          [])
  }

  /** What the constructor does with the nine cells. A won board has no possibilities and
      starts on the winner theme of the theme it is given; an unwon one has exactly one
      possibility per empty cell, in position order. Marks are made for exactly the
      occupied cells, in position order, either way. */
  lemma NewBoardCells(s: GameState, theme: Theme, w: Option<Winner>)
    ensures var b := NewBoard(s, theme, w);
      (b.isWin <==> w.Some?) &&
      (w.Some? ==> b.winner == w.value.player && b.possibilities == [] && b.theme == WinnerOf(theme)) &&
      (w.None? ==> b.winner == NoPlayer && b.theme == theme) &&
      (forall p :: p in b.possibilities ==> OpensFrom(s, p)) &&
      (w.None? ==> forall q: Position :: q !in s ==> Possibility(PlayPosition(s, q), q) in b.possibilities) &&
      (forall i, j :: 0 <= i < j < |b.possibilities| ==> b.possibilities[i].position < b.possibilities[j].position) &&
      (forall m :: m in b.marks ==> MarkFor(s, m.cell) == Some(m)) &&
      (forall q: Position :: q in s ==> MarkFor(s, q).value in b.marks) &&
      (forall i, j :: 0 <= i < j < |b.marks| ==> b.marks[i].cell < b.marks[j].cell)
  {
  }

  /** The board a possibility opens into, on the theme of its parent board. */
  function Opening(p: Possibility, theme: Theme, fw: WinnerFinder): (b: Board)
    ensures WellFormed(b) && b.gameState == p.gameState && b.kids == []
  {
    NewBoard(p.gameState, theme, fw(p.gameState))
  }

  // ---------------------------------------------------------------------------------------
  // Themes

  /** `setTheme`'s choice: a board that is won, or whose winner is the player who moved
      last, takes the winner theme; a board whose winner is the player to move takes the
      loser theme; any other board keeps the theme it is given. */
  function ChooseTheme(s: GameState, winner: Player, isWin: bool, t: Theme): (r: Theme)
    ensures isWin ==> r == WinnerOf(t)
    ensures !isWin && winner == NoPlayer ==> r == t
    ensures !isWin && winner != NoPlayer ==>
      r == (if winner == CurrentPlayer(s) then LoserOf(t) else WinnerOf(t))
  {
    var currentPlayer := CurrentPlayer(s);
    var isLosing := winner == currentPlayer;
    var isWinning := isWin || winner == OtherPlayer(currentPlayer);
    if isWinning then WinnerOf(t) else if isLosing then LoserOf(t) else t
  }

  /** `setTheme(t)` on a whole subtree. Only themes change. */
  function SetThemeSpec(b: Board, t: Theme): (r: Board)
    ensures r.gameState == b.gameState && r.possibilities == b.possibilities && r.marks == b.marks
    ensures r.winner == b.winner && r.isWin == b.isWin
    ensures r.theme == ChooseTheme(b.gameState, b.winner, b.isWin, t)
    ensures |r.kids| == |b.kids| && forall i :: 0 <= i < |b.kids| ==> r.kids[i].gameState == b.kids[i].gameState
    ensures WellFormed(b) ==> WellFormed(r)
    decreases b
  {
    var nt := ChooseTheme(b.gameState, b.winner, b.isWin, t);
    b.(theme := nt, kids := seq(|b.kids|, i requires 0 <= i < |b.kids| => SetThemeSpec(b.kids[i], nt)))
  }

  /** The themes after `setTheme` depend only on the theme passed in: a second call
      overrides everything the first one did. */
  lemma {:induction false} SetThemeOverrides(b: Board, t1: Theme, t2: Theme)
    ensures SetThemeSpec(SetThemeSpec(b, t1), t2) == SetThemeSpec(b, t2)
    decreases b
  {
    var once := SetThemeSpec(b, t1);
    var twice := SetThemeSpec(once, t2);
    var direct := SetThemeSpec(b, t2);
    forall i | 0 <= i < |b.kids| ensures twice.kids[i] == direct.kids[i] {
      SetThemeOverrides(b.kids[i], ChooseTheme(b.gameState, b.winner, b.isWin, t1), direct.theme);
    }
  }

  /** `setWinner(player)`: the winner is set, then the board's own theme is applied again. */
  function SetWinnerSpec(b: Board, player: Player): (r: Board)
    ensures WellFormed(b) ==> WellFormed(r)
    ensures r.winner == player && r.isWin == b.isWin && r.gameState == b.gameState
  {
    SetThemeSpec(b.(winner := player), b.theme)
  }

  // ---------------------------------------------------------------------------------------
  // Revealed positions

  /** `getRevealedPosition`: the board's state, with a winner record exactly when the
      winner is set, and that record names the board's own state. */
  function RevealedOf(b: Board): (r: RevealedPosition)
    ensures r.gameState == b.gameState
    ensures r.winner.Some? <==> b.winner != NoPlayer
    ensures r.winner.Some? ==> r.winner.value.player == b.winner && r.winner.value.gameState == b.gameState
  {
    RevealedPosition(b.gameState, if b.winner != NoPlayer then Some(WinnerRecord(b.winner, b.gameState)) else None)
  }

  /** The records of the children, in order, as `notifyRevealedPosition` gathers them. */
  function KidsRevealed(b: Board): (r: seq<RevealedPosition>)
    ensures |r| == |b.kids|
    ensures forall i :: 0 <= i < |b.kids| ==> r[i] == RevealedOf(b.kids[i])
  {
    seq(|b.kids|, i requires 0 <= i < |b.kids| => RevealedOf(b.kids[i]))
  }

  // ---------------------------------------------------------------------------------------
  // showPosition

  /** `split.find(...)` for a board at `s`: the index of the first record whose state
      is `s` or lies below it, or -1. */
  function FindIndex(sp: seq<RevealedPosition>, s: GameState): (k: int)
    ensures -1 <= k < |sp|
    ensures k == -1 <==> forall j :: 0 <= j < |sp| ==> !IsAncestorOrSelf(s, sp[j].gameState)
    ensures k != -1 ==> IsAncestorOrSelf(s, sp[k].gameState)
    ensures k != -1 ==> forall j :: 0 <= j < k ==> !IsAncestorOrSelf(s, sp[j].gameState)
    decreases |sp|
  {
    if sp == [] then -1
    else if IsAncestorOrSelf(s, sp[0].gameState) then 0
    else
      var k := FindIndex(sp[1..], s);
      if k == -1 then -1 else k + 1
  }

  /** The possibilities no record of `sp` relates to, in their order. */
  function Kept(ps: seq<Possibility>, sp: seq<RevealedPosition>): (r: seq<Possibility>)
    ensures forall p :: p in r ==> p in ps
    ensures Distinct(ps) ==> Distinct(r)
    decreases |ps|
  {
    if ps == [] then []
    else
      var last := ps[|ps| - 1];
      var front := Kept(ps[..|ps| - 1], sp);
      assert ps == ps[..|ps| - 1] + [last];
      DistinctSnoc(ps[..|ps| - 1], last);
      DistinctSnoc(front, last);
      front + (if FindIndex(sp, last.gameState) == -1 then [last] else [])
  }

  /** The possibilities some record of `sp` relates to, in their order. */
  function Opened(ps: seq<Possibility>, sp: seq<RevealedPosition>): (r: seq<Possibility>)
    ensures forall p :: p in r ==> p in ps
    decreases |ps|
  {
    if ps == [] then []
    else
      var last := ps[|ps| - 1];
      Opened(ps[..|ps| - 1], sp) + (if FindIndex(sp, last.gameState) != -1 then [last] else [])
  }

  /** Growing the list of possibilities by one at the end. */
  lemma Snoc(ps: seq<Possibility>, x: Possibility, sp: seq<RevealedPosition>)
    ensures Kept(ps + [x], sp) == Kept(ps, sp) + (if FindIndex(sp, x.gameState) == -1 then [x] else [])
    ensures Opened(ps + [x], sp) == Opened(ps, sp) + (if FindIndex(sp, x.gameState) != -1 then [x] else [])
  {
    assert (ps + [x])[..|ps|] == ps;
  }

  /** Removing `x` from `a + [x] + c`, when `a` does not hold it. */
  lemma RemoveAtBoundary(a: seq<Possibility>, x: Possibility, c: seq<Possibility>)
    requires x !in a
    ensures IndexOf(a + [x] + c, x) == |a| && RemoveAt(a + [x] + c, |a|) == a + c
  {
    var s := a + [x] + c;
    assert s[..|a|] == a;
    var i := IndexOf(s, x);
    assert s[|a|] == x;
    assert RemoveAt(s, |a|) == s[..|a|] + s[|a| + 1..];
    assert s[|a| + 1..] == c;
  }

  /** The list before and after step `k` of the opening loop, around the possibility
      at the boundary. */
  lemma SnapshotAround(snapshot: seq<Possibility>, k: nat, sp: seq<RevealedPosition>)
    requires k < |snapshot|
    ensures Kept(snapshot[..k], sp) + snapshot[k..] == Kept(snapshot[..k], sp) + [snapshot[k]] + snapshot[k + 1..]
    ensures FindIndex(sp, snapshot[k].gameState) == -1 ==>
      Kept(snapshot[..k + 1], sp) + snapshot[k + 1..] == Kept(snapshot[..k], sp) + [snapshot[k]] + snapshot[k + 1..]
    ensures FindIndex(sp, snapshot[k].gameState) != -1 ==>
      Kept(snapshot[..k + 1], sp) + snapshot[k + 1..] == Kept(snapshot[..k], sp) + snapshot[k + 1..]
  {
    var x := snapshot[k];
    assert snapshot[..k + 1] == snapshot[..k] + [x];
    Snoc(snapshot[..k], x, sp);
    assert snapshot[k..] == [x] + snapshot[k + 1..];
  }

  /** In a distinct snapshot, the possibility at index `k` is not among those kept before it. */
  lemma NotKeptBefore(snapshot: seq<Possibility>, k: nat, sp: seq<RevealedPosition>)
    requires Distinct(snapshot) && k < |snapshot|
    ensures snapshot[k] !in Kept(snapshot[..k], sp)
  {
    assert snapshot[k] !in snapshot[..k] by {
      forall j | 0 <= j < k ensures snapshot[..k][j] != snapshot[k] { assert snapshot[j] != snapshot[k]; }
    }
  }

  /** One step of the opening loop over a snapshot of the possibilities: before step `k`
      the list holds the kept part of the first `k` and the rest of the snapshot. Showing
      possibility `k` (found at the boundary) or skipping it moves the boundary. */
  lemma SnapshotStep(snapshot: seq<Possibility>, k: nat, sp: seq<RevealedPosition>)
    requires Distinct(snapshot) && k < |snapshot|
    ensures var x := snapshot[k];
      var cur := Kept(snapshot[..k], sp) + snapshot[k..];
      var next := Kept(snapshot[..k + 1], sp) + snapshot[k + 1..];
      x in cur &&
      (FindIndex(sp, x.gameState) == -1 ==> cur == next) &&
      (FindIndex(sp, x.gameState) != -1 ==> RemoveAt(cur, IndexOf(cur, x)) == next)
  {
    var x, rest := snapshot[k], snapshot[k + 1..];
    var kept := Kept(snapshot[..k], sp);
    var cur := kept + snapshot[k..];
    SnapshotAround(snapshot, k, sp);
    assert cur == kept + [x] + rest;
    assert cur[|kept|] == x;
    if FindIndex(sp, x.gameState) != -1 {
      NotKeptBefore(snapshot, k, sp);
      RemoveAtBoundary(kept, x, rest);
    }
  }

  /** The same step for the possibilities that are opened. */
  lemma OpenedStep(snapshot: seq<Possibility>, k: nat, sp: seq<RevealedPosition>)
    requires k < |snapshot|
    ensures Opened(snapshot[..k + 1], sp) ==
      Opened(snapshot[..k], sp) + (if FindIndex(sp, snapshot[k].gameState) != -1 then [snapshot[k]] else [])
  {
    assert snapshot[..k + 1] == snapshot[..k] + [snapshot[k]];
    Snoc(snapshot[..k], snapshot[k], sp);
  }

  /** Whether `showPosition(r)` sets the winner: the record names a winner whose state is
      the board's own state or one of its ancestors. */
  predicate SetsWinner(b: Board, r: RevealedPosition) {
    r.winner.Some? && IndexOfPredecessor(b.gameState, r.winner.value.gameState) > -1
  }

  /** The first step of `showPosition(r)`: `setWinner` when the record's winner applies. */
  function WinnerStep(b: Board, r: RevealedPosition): (res: Board)
    ensures WellFormed(b) ==> WellFormed(res)
    ensures res.gameState == b.gameState && res.possibilities == b.possibilities
    ensures res.winner == (if SetsWinner(b, r) then r.winner.value.player else b.winner)
  {
    if SetsWinner(b, r) then SetWinnerSpec(b, r.winner.value.player) else b
  }

  /** The boards the possibilities `ps` open into, on theme `theme`. */
  function Openings(ps: seq<Possibility>, theme: Theme, fw: WinnerFinder): (r: seq<Board>)
    ensures |r| == |ps|
    ensures forall i :: 0 <= i < |ps| ==> r[i] == Opening(ps[i], theme, fw)
  {
    seq(|ps|, i requires 0 <= i < |ps| => Opening(ps[i], theme, fw))
  }

  /** The children of `b` after their parent's `showPosition` forwarded the records `sp`. */
  function ForwardAll(b: Board, sp: seq<RevealedPosition>, split: Splitter, fw: WinnerFinder): (r: seq<Board>)
    requires WellFormed(b)
    ensures |r| == |b.kids|
    ensures forall i :: 0 <= i < |r| ==> b.gameState < r[i].gameState && WellFormed(r[i])
    decreases Unplayed(b.gameState), 0
  {
    seq(|b.kids|, i requires 0 <= i < |b.kids| =>
      UnplayedShrinks(b.gameState, b.kids[i].gameState);
      ForwardSpec(b.kids[i], sp, split, fw))
  }

  /** `showPosition(r)`: the winner step, then the possibilities some split record relates
      to are opened, the existing children related to a record are shown it, and the
      opened boards are appended after them. */
  function ShowSpec(b: Board, r: RevealedPosition, split: Splitter, fw: WinnerFinder): (res: Board)
    requires WellFormed(b)
    ensures WellFormed(res)
    decreases Unplayed(b.gameState), 1
  {
    var b1 := WinnerStep(b, r);
    var sp := split(r, b.gameState);
    var toOpen := Opened(b1.possibilities, sp);
    var forwarded := ForwardAll(b1, sp, split, fw);
    var created := Openings(toOpen, b1.theme, fw);
    assert forall i :: 0 <= i < |created| ==> toOpen[i] in b1.possibilities;
    Below(b.gameState, forwarded, created);
    Rebuilt(b1, Kept(b1.possibilities, sp), forwarded + created);
    b1.(possibilities := Kept(b1.possibilities, sp), kids := forwarded + created)
  }

  /** What a child board goes through during its parent's `showPosition`: it is shown the
      first split record related to it, or left alone. */
  function ForwardSpec(k: Board, sp: seq<RevealedPosition>, split: Splitter, fw: WinnerFinder): (res: Board)
    requires WellFormed(k)
    ensures WellFormed(res) && res.gameState == k.gameState
    decreases Unplayed(k.gameState), 2
  {
    var i := FindIndex(sp, k.gameState);
    if i == -1 then k else ShowSpec(k, sp[i], split, fw)
  }

  /** Forwarding depends on the children only, not on the possibilities. */
  lemma ForwardAllKids(b: Board, ps: seq<Possibility>, sp: seq<RevealedPosition>, split: Splitter, fw: WinnerFinder)
    requires WellFormed(b) && WellFormed(b.(possibilities := ps))
    ensures ForwardAll(b.(possibilities := ps), sp, split, fw) == ForwardAll(b, sp, split, fw)
  {
  }

  lemma ForwardAllShape(b: Board, sp: seq<RevealedPosition>, split: Splitter, fw: WinnerFinder)
    requires WellFormed(b)
    ensures forall i :: 0 <= i < |b.kids| ==> ForwardAll(b, sp, split, fw)[i] == ForwardSpec(b.kids[i], sp, split, fw)
  {
  }

  /** `ShowSpec` described piece by piece: the winner step, then the kept possibilities,
      the forwarded children and the opened boards. */
  lemma ShowSpecIs(b: Board, r: RevealedPosition, split: Splitter, fw: WinnerFinder, res: Board)
    requires WellFormed(b)
    requires var b1 := WinnerStep(b, r);
      var sp := split(r, b.gameState);
      res == b1.(possibilities := Kept(b1.possibilities, sp),
                 kids := ForwardAll(b1, sp, split, fw) + Openings(Opened(b1.possibilities, sp), b1.theme, fw))
    ensures res == ShowSpec(b, r, split, fw)
  {
  }

  /** One more opened possibility is one more opened board. */
  lemma OpeningsSnoc(ps: seq<Possibility>, p: Possibility, theme: Theme, fw: WinnerFinder)
    ensures Openings(ps + [p], theme, fw) == Openings(ps, theme, fw) + [Opening(p, theme, fw)]
  {
    var lhs := Openings(ps + [p], theme, fw);
    var front := Openings(ps, theme, fw);
    forall i | 0 <= i < |ps| ensures lhs[i] == front[i] {
      assert (ps + [p])[i] == ps[i];
    }
    assert lhs[|ps|] == Opening(p, theme, fw);
    Concatenation(lhs, front, [Opening(p, theme, fw)]);
  }

  // ---------------------------------------------------------------------------------------
  // play

  /** Taking a possibility out and appending a well-formed board for its state keeps the
      board well formed. */
  lemma PlayedShape(b: Board, p: Possibility, kid: Board)
    requires WellFormed(b) && p in b.possibilities && WellFormed(kid) && kid.gameState == p.gameState
    ensures WellFormed(b.(possibilities := RemoveAt(b.possibilities, IndexOf(b.possibilities, p)),
                          kids := b.kids + [kid]))
  {
    RemoveAtKeeps(b.possibilities, IndexOf(b.possibilities, p));
    assert OpensFrom(b.gameState, p);
    Below(b.gameState, b.kids, [kid]);
    Rebuilt(b, RemoveAt(b.possibilities, IndexOf(b.possibilities, p)), b.kids + [kid]);
  }

  /** `play(p)`: the possibility becomes a child board on the current theme and, if the
      state it reaches has a winner, the board takes that winner. */
  function PlaySpec(b: Board, p: Possibility, fw: WinnerFinder): (res: Board)
    requires WellFormed(b) && p in b.possibilities
    ensures WellFormed(res)
  {
    var w := fw(p.gameState);
    var kid := Opening(p, b.theme, fw);
    PlayedShape(b, p, kid);
    var b1 := b.(possibilities := RemoveAt(b.possibilities, IndexOf(b.possibilities, p)), kids := b.kids + [kid]);
    if w.Some? then SetWinnerSpec(b1, w.value.player) else b1
  }
}
