/**
 The move chooser as it runs: every method works on the caller's grid in
 place, writing a mark into an empty cell, searching, and writing `None`
 back. Each method is proved equal to its specification function in
 `MinimaxSpec` and to leave every cell of the grid as it found it.

 The ghost parameter `b` names the board value the grid holds on entry
 (`Mirrors(g, b)`); `Snapshot(g)` is always such a value.
 */
module MinMaxAI {
  import opened Grid
  import opened MinimaxSpec

  /** Scans the grid in row-major order for the best move of `currentPlayer`. */
  method GetBestMove(g: array2<PlayerMark>, ghost b: Board, w: WinCheck, currentPlayer: PlayerMark)
    returns (bestMove: Move)
    requires Mirrors(g, b)
    modifies g
    ensures unchanged(g)
    ensures bestMove == BestMove(w, b, currentPlayer)
  {
    var bestValue := MinScore;
    bestMove := NoMove;
    var i := 0;
    while i < g.Length0
      invariant 0 <= i <= g.Length0
      invariant unchanged(g)
      invariant (bestMove, bestValue) == BestBefore(w, b, currentPlayer, i, 0)
    {
      var j := 0;
      while j < g.Length1
        invariant 0 <= j <= g.Length1
        invariant unchanged(g)
        invariant (bestMove, bestValue) == BestBefore(w, b, currentPlayer, i, j)
      {
        if g[i, j] == None {
          g[i, j] := currentPlayer;
          assert Mirrors(g, Place(b, i, j, currentPlayer));
          var moveValue := MinMax(g, Place(b, i, j, currentPlayer), w, 0, false, currentPlayer);
          g[i, j] := None;
          if moveValue > bestValue {
            bestMove := Cell(i, j);
            bestValue := moveValue;
          }
        }
        j := j + 1;
      }
      i := i + 1;
    }
  }

  /**
   The minimax value of the grid for `player` to place a mark. The source's
   two loops, one folding with Max from -10 and one with Min from +10, are
   written as one loop whose fold is chosen by `isMaximizing`.
   */
  method MinMax(g: array2<PlayerMark>, ghost b: Board, w: WinCheck, depth: int, isMaximizing: bool, player: PlayerMark)
    returns (best: int)
    requires Mirrors(g, b)
    modifies g
    ensures unchanged(g)
    ensures best == Score(w, b, player, isMaximizing)
    decreases Empties(b), Rank(player)
  {
    var score := Evaluate(g, b, w, player);
    if score == MaxScore || score == MinScore {
      return score;
    }
    var movesLeft := IsMovesLeft(g);
    MirrorsMovesLeft(g, b);
    if !movesLeft {
      return 0;
    }
    best := if isMaximizing then MinScore else MaxScore;
    var i := 0;
    while i < g.Length0
      invariant 0 <= i <= g.Length0
      invariant unchanged(g)
      invariant best == Fold(w, b, player, isMaximizing, i, 0)
    {
      var j := 0;
      while j < g.Length1
        invariant 0 <= j <= g.Length1
        invariant unchanged(g)
        invariant best == Fold(w, b, player, isMaximizing, i, j)
      {
        if g[i, j] == None {
          g[i, j] := player;
          assert Mirrors(g, Place(b, i, j, player));
          EmptiesPlace(b, i, j, player);
          var reply := MinMax(g, Place(b, i, j, player), w, depth + 1, !isMaximizing, Opponent(player));
          g[i, j] := None;
          best := if isMaximizing then Max(best, reply) else Min(best, reply);
        }
        j := j + 1;
      }
      i := i + 1;
    }
  }

  /**
   Whether some empty cell, with `player` written into it, makes the win
   test say yes. The test sees the grid with the probe in place; the probe
   is taken back before the answer is looked at, and the scan stops at the
   first yes.
   */
  method CheckWin(g: array2<PlayerMark>, ghost b: Board, w: WinCheck, player: PlayerMark) returns (found: bool)
    requires Mirrors(g, b)
    modifies g
    ensures unchanged(g)
    ensures found == WinAvailable(w, b, player)
  {
    var i := 0;
    while i < g.Length0
      invariant 0 <= i <= g.Length0
      invariant unchanged(g)
      invariant forall r, c :: InBounds(b, r, c) && Before(r, c, i, 0) ==> !WinningProbe(w, b, player, r, c)
    {
      var j := 0;
      while j < g.Length1
        invariant 0 <= j <= g.Length1
        invariant unchanged(g)
        invariant forall r, c :: InBounds(b, r, c) && Before(r, c, i, j) ==> !WinningProbe(w, b, player, r, c)
      {
        if g[i, j] == None {
          g[i, j] := player;
          MirrorsSnapshot(g, Place(b, i, j, player));
          var isWinningMove := match w
            case Unsubscribed => false
            case Subscribed(test) => test(Snapshot(g), player);
          g[i, j] := None;
          if isWinningMove {
            assert WinningProbe(w, b, player, i, j);
            return true;
          }
        }
        j := j + 1;
      }
      i := i + 1;
    }
    return false;
  }

  /** Whether some cell of the grid is empty. */
  method IsMovesLeft(g: array2<PlayerMark>) returns (left: bool)
    ensures left <==> exists r, c :: 0 <= r < g.Length0 && 0 <= c < g.Length1 && g[r, c] == None
  {
    for i := 0 to g.Length0
      invariant forall r, c :: 0 <= r < i && 0 <= c < g.Length1 ==> g[r, c] != None
    {
      for j := 0 to g.Length1
        invariant forall c :: 0 <= c < j ==> g[i, c] != None
      {
        if g[i, j] == None {
          return true;
        }
      }
    }
    return false;
  }

  /** +10 if `player` can win in one move, else -10 if its opponent can, else 0. */
  method Evaluate(g: array2<PlayerMark>, ghost b: Board, w: WinCheck, player: PlayerMark) returns (score: int)
    requires Mirrors(g, b)
    modifies g
    ensures unchanged(g)
    ensures score == Evaluation(w, b, player)
  {
    var playerWins := CheckWin(g, b, w, player);
    if playerWins {
      return MaxScore;
    }
    var opponent := Opponent(player);
    var opponentWins := CheckWin(g, b, w, opponent);
    if opponentWins {
      return MinScore;
    }
    return 0;
  }
}
