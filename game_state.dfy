/** The players and outcome of a two-player game (game/State.java). */
module GameState {

  /** The two players. */
  datatype Player = Player1 | Player2
  {
    /** `opponent()`: the other player. */
    function Opponent(): (q: Player)
      ensures q != this
    {
      match this
      case Player1 => Player2
      case Player2 => Player1
    }
  }

  /** The opponent of the opponent is the player itself. */
  lemma OpponentInvolution(p: Player)
    ensures p.Opponent().Opponent() == p
  {
  }

  /** Where a game stands. */
  datatype Status = InProgress | Player1Wins | Player2Wins | Draw

  /** The status in which `p` has won. */
  function WinStatus(p: Player): (s: Status)
    ensures s != InProgress && s != Draw
  {
    match p
    case Player1 => Player1Wins
    case Player2 => Player2Wins
  }

  /** Different players win in different statuses. */
  lemma WinStatusInjective(p: Player, q: Player)
    ensures WinStatus(p) == WinStatus(q) <==> p == q
  {
  }

  /** `isWinner(player)` of a state whose `getStatus()` is `status`. */
  predicate IsWinner(status: Status, p: Player)
    ensures IsWinner(status, p) ==> status != InProgress && status != Draw
  {
    match status
    case Player1Wins => p == Player1
    case Player2Wins => p == Player2
    case _ => false
  }

  /** `p` has won exactly when the status is the win of `p`. */
  lemma WinnerIsWinStatus(status: Status, p: Player)
    ensures IsWinner(status, p) <==> status == WinStatus(p)
  {
  }

  /** While the game goes on, and after a draw, nobody has won. */
  lemma UndecidedHasNoWinner(status: Status, p: Player)
    requires status == InProgress || status == Draw
    ensures !IsWinner(status, p)
  {
  }

  /** At most one player has won, and never both a player and its
      opponent. */
  lemma AtMostOneWinner(status: Status, p: Player, q: Player)
    requires IsWinner(status, p) && IsWinner(status, q)
    ensures p == q
    ensures !IsWinner(status, p.Opponent())
  {
  }

  /** Someone has won exactly when the status is neither `InProgress` nor
      `Draw`. */
  lemma WinnerExists(status: Status)
    ensures (exists p :: IsWinner(status, p)) <==> status != InProgress && status != Draw
  {
    if status == Player1Wins {
      assert IsWinner(status, Player1);
    } else if status == Player2Wins {
      assert IsWinner(status, Player2);
    }
  }
}
