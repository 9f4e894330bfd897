/**
 * The game state of one board, seen only through the operations the core uses.
 * A game state is the path of positions played from the initial state, one
 * position per nesting level; a position never occurs twice on a path.
 */
module GameStates {
  import opened Wrappers

  /** A cell of a 3x3 board, row-major. */
  type Position = p: int | 0 <= p <= 8

  /** 0 = no player, 1 = X, 2 = O. */
  type Player = p: int | 0 <= p <= 2

  const NoPlayer: Player := 0
  const X: Player := 1
  const O: Player := 2

  predicate NoRepeats(s: seq<Position>) {
    forall i, j :: 0 <= i < j < |s| ==> s[i] != s[j]
  }

  /** The state reached by playing the positions of the path in order. Equality is path equality. */
  type GameState = s: seq<Position> | NoRepeats(s) witness []

  const Initial: GameState := []

  /** The state after playing `p`; playing an occupied position is a caller error. */
  function PlayPosition(s: GameState, p: Position): (r: GameState)
    requires p !in s
    ensures |r| == |s| + 1 && s < r && r[|s|] == p
  {
    var r := s + [p];
    assert forall i :: 0 <= i < |s| ==> r[i] == s[i];
    r
  }

  /** Where `ancestor` sits on the chain of `s`: its depth when it is a prefix of `s`
      (the state itself included), -1 otherwise. */
  function IndexOfPredecessor(s: GameState, ancestor: GameState): (k: int)
    ensures k == -1 || k == |ancestor|
    ensures k != -1 <==> ancestor <= s
  {
    if ancestor <= s then |ancestor| else -1
  }

  /** The ancestor of `s` at depth `k` (the root has depth 0), if there is one. */
  function PredecessorAtIndex(s: GameState, k: int): (r: Option<GameState>)
    ensures r.Some? <==> 0 <= k <= |s|
    ensures r.Some? ==> |r.value| == k && r.value <= s
  {
    if 0 <= k <= |s| then Some(s[..k]) else None
  }

  function LastPlayedPosition(s: GameState): (r: Option<Position>)
    ensures r.Some? <==> s != Initial
    ensures r.Some? ==> s[|s| - 1] == r.value
  {
    if |s| == 0 then None else Some(s[|s| - 1])
  }

  /** X moves at even depth, O at odd depth. */
  function CurrentPlayer(s: GameState): (p: Player)
    ensures p == X || p == O
    ensures p == X <==> |s| % 2 == 0
  {
    if |s| % 2 == 0 then X else O
  }

  /** The opponent of a player who is X or O. */
  function OtherPlayer(p: Player): (q: Player)
    requires p == X || p == O
    ensures (q == X || q == O) && q != p
  {
    if p == X then O else X
  }

  /** The player occupying `p` at this level: whoever moved at the depth where `p` was played. */
  function PlayerAt(s: GameState, p: Position): (r: Player)
    ensures r == NoPlayer <==> p !in s
    ensures p in s ==> r == (if IndexOf(s, p) % 2 == 0 then X else O)
  {
    var k := IndexOf(s, p);
    if k == -1 then NoPlayer else if k % 2 == 0 then X else O
  }

  function PlayersAtPositions(s: GameState): (r: seq<Player>)
    ensures |r| == 9
    ensures forall p: Position :: r[p] == PlayerAt(s, p)
  {
    seq(9, (p: int) requires 0 <= p < 9 => PlayerAt(s, p))
  }

  /** A state that is `ancestor` or one of its descendants. */
  predicate IsAncestorOrSelf(ancestor: GameState, s: GameState) {
    IndexOfPredecessor(s, ancestor) > -1
  }

  /** The positions not yet played on the path. */
  ghost function Unplayed(s: GameState): (u: set<Position>)
    ensures forall p: Position :: p in u <==> p !in s
  {
    set p: Position | p !in s
  }

  /** Every move played shrinks the set of unplayed positions, so paths cannot grow forever. */
  lemma UnplayedShrinks(s: GameState, t: GameState)
    requires s < t
    ensures Unplayed(t) < Unplayed(s)
  {
    assert t[|s|] !in s by {
      forall i | 0 <= i < |s| ensures s[i] != t[|s|] { assert s[i] == t[i]; }
    }
    assert t[|s|] in Unplayed(s) - Unplayed(t);
  }

  lemma {:induction false} PredecessorOfIndex(s: GameState, ancestor: GameState)
    requires IndexOfPredecessor(s, ancestor) != -1
    ensures PredecessorAtIndex(s, IndexOfPredecessor(s, ancestor)) == Some(ancestor)
  {
    assert s[..|ancestor|] == ancestor;
  }
}

/** The update record that boards, storage and peers exchange. */
module RevealedPositions {
  import opened Wrappers
  import opened GameStates

  /** `player` has won the board at `gameState`. */
  datatype WinnerRecord = WinnerRecord(player: Player, gameState: GameState)

  /** The board at `gameState` is revealed; `winner` optionally reports a won board. */
  datatype RevealedPosition = RevealedPosition(gameState: GameState, winner: Option<WinnerRecord>)
}
