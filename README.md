# MinMaxAI move chooser — a Dafny model

This project models the move chooser of a Unity tic-tac-toe game, the
`MinMaxAI` component. Given a grid of cells and the mark of the player to
move, `GetBestMove` returns the cell it judges best, or nothing.

The chooser has no line checker of its own. A cell is scored by asking an
externally subscribed predicate, `CheckWinEvent`, whether some empty cell
would give a player a win once that player's mark is written there.

The search works on the caller's grid in place. It writes a mark into an
empty cell, recurses, and writes `None` back. The code is modelled as it is
written, including these quirks:

- `GetBestMove` places `currentPlayer` and then calls `MinMax` with the same
  `currentPlayer`, so the first minimizing ply places that mark again. Only
  after that does the mover alternate through `GetOpponent`.
- `Evaluate` scores +10 or -10 when a one-move win is *available* to the
  player or the opponent, as reported by the predicate. It does not check
  for a completed line.
- Bests are replaced only under strict `>` starting from -10. So the first
  maximal cell in row-major order wins a tie. When every empty cell is
  worth -10, no cell is returned.
- `GetOpponent` maps X to O and every other mark, `None` included, to X.

Layout:

- `grid.dfy` (module `Grid`): the marks, board values (`seq<seq<PlayerMark>>`),
  placing a mark, the count of empty cells, and how an `array2<PlayerMark>`
  grid holds a board value (`Mirrors`, `Snapshot`).
- `minimax_spec.dfy` (module `MinimaxSpec`): the specification, written as
  functions of board values: `Opponent`, `WinAvailable`, `Evaluation`,
  `Score`/`Fold` (minimax), `BestBefore`/`BestMove` (the row-major scan).
  The lemmas state what these functions guarantee.
- `minmax_ai.dfy` (module `MinMaxAI`): the methods of the source,
  imperative over an `array2<PlayerMark>` grid. `GetBestMove`, `MinMax`,
  `CheckWin` and `Evaluate` write probes into the grid. Each is proved
  equal to its specification function (`BestMove`, `Score`,
  `WinAvailable`, `Evaluation`), and each restores the grid
  (`unchanged(g)`). `IsMovesLeft` only reads the grid. It is proved true
  iff some cell of the array is `None`. `Grid.MirrorsMovesLeft` ties that
  to `MovesLeft` of the board the grid holds.

Modelling choices:

- Each cell is a `CellModel` object with a mutable `OccupyingPlayer`. The
  grid creates a fresh one per slot, so cells never alias. The model
  therefore uses a 2-D array of marks.
- `CheckWinEvent` is a `WinCheck` value. `Unsubscribed` answers false, like
  `?.Invoke(...) ?? false` with no handler. `Subscribed(test)` calls
  `test(board, mark)` on the grid's current contents with the probe in
  place. The C# delegate receives only the mark. No handler is part of the
  source. The model assumes a handler judges the grid as it stands when it
  is invoked. So the model passes the grid's current contents
  explicitly.
- The returned `CellModel` (or `null`) is a `Move`: `Cell(row, col)` or
  `NoMove`.
- `MinMax` in the source has two copies of its loop: `Math.Max` from -10
  when maximizing, `Math.Min` from +10 otherwise. The model has one loop
  that picks the fold by `isMaximizing`. The branches and the order are
  the same.
- `GetBestMove` does not require the mark to be X or O. Placing `None` on
  an empty cell changes nothing. The next ply then places X. So the search
  ends for every mark, with the termination measure (empty cells, 1 if the
  mover is `None` else 0).

## Model

| member | source | states |
|---|---|---|
| `MinMaxAI.GetBestMove` | Assets/Code/Scripts/AI/MinMaxAI.cs:12-41 | every cell is as it was on entry; the result is `BestMove` of the entry board (row-major scan, strict `>`, start at -10, each empty cell valued by `MinMax(..., false, currentPlayer)` after placing `currentPlayer`) |
| `MinMaxAI.MinMax` | Assets/Code/Scripts/AI/MinMaxAI.cs:44-92 | every cell is as it was on entry; the result is `Score` of the entry board: a ±10 evaluation is returned at once, a full board gives 0, otherwise the replies are folded with Max from -10 or Min from +10, the mover placing its mark and the next ply going to `GetOpponent(player)` |
| `MinMaxAI.CheckWin` | Assets/Code/Scripts/AI/MinMaxAI.cs:94-123 | every cell is as it was on entry; the result is true iff some empty cell, with `player` written into it, makes the subscribed predicate true (false when nothing is subscribed) |
| `MinMaxAI.IsMovesLeft` | Assets/Code/Scripts/AI/MinMaxAI.cs:126-134 | true iff some cell of the grid is `None` |
| `MinMaxAI.Evaluate` | Assets/Code/Scripts/AI/MinMaxAI.cs:137-149 | every cell is as it was on entry; the result is `Evaluation` of the entry board |
| `MinimaxSpec.Opponent` | Assets/Code/Scripts/AI/MinMaxAI.cs:152-153 | the opponent is never `None` and never the mark itself, and every mark other than X (O and `None`) is answered by X; so X is answered by O |
| `MinimaxSpec.OpponentInvolution` | Assets/Code/Scripts/AI/MinMaxAI.cs:152-153 | on the two players the opponent rule is its own inverse |
| `MinimaxSpec.NoWinWithoutProbe` | Assets/Code/Scripts/AI/MinMaxAI.cs:101-122 | with no handler subscribed, or with no empty cell to probe, no win is reported |
| `MinimaxSpec.Evaluation` | Assets/Code/Scripts/AI/MinMaxAI.cs:137-149 | the evaluation is 10, 0 or -10; 10 iff the player has a one-move win; -10 iff it has none and the opponent (O for X, X otherwise) has one |
| `MinimaxSpec.Score` | Assets/Code/Scripts/AI/MinMaxAI.cs:44-92 | the minimax value always lies in [-10, 10] |
| `MinimaxSpec.Fold` | Assets/Code/Scripts/AI/MinMaxAI.cs:56-91 | every partial Max/Min fold of the replies stays in [-10, 10] |
| `MinimaxSpec.FullBoardIsDraw` | Assets/Code/Scripts/AI/MinMaxAI.cs:53-54 | on a board with no `None` cell the evaluation and the minimax value are 0, whatever the predicate, and the count of empty cells (the recursion's measure) is 0 |
| `MinimaxSpec.DecidedBoardScore` | Assets/Code/Scripts/AI/MinMaxAI.cs:46-50 | a ±10 evaluation is the minimax value, with no reply explored; +10 iff the mover has a one-move win |
| `MinimaxSpec.FoldExtremum` | Assets/Code/Scripts/AI/MinMaxAI.cs:56-91 | the fold over the cells before (i, j) bounds every reply seen, from above when maximizing and from below otherwise, and equals its start value or one of those replies |
| `MinimaxSpec.OpenBoardScore` | Assets/Code/Scripts/AI/MinMaxAI.cs:46-91 | on an undecided board with an empty cell the minimax value is the largest reply when maximizing and the smallest when minimizing: all replies are on the right side of it and one attains it |
| `MinimaxSpec.UnsubscribedScoresZero` | Assets/Code/Scripts/AI/MinMaxAI.cs:107 | with no handler subscribed every position scores 0 |
| `MinimaxSpec.BestBeforeSpec` | Assets/Code/Scripts/AI/MinMaxAI.cs:14-36 | after scanning up to (i, j): the best value is in [-10, 10] and is -10 exactly when no cell is kept; it bounds every empty cell seen; a kept cell is an empty cell already seen, has that value, and every empty cell before it is worth strictly less |
| `MinimaxSpec.BestMoveIsFirstMaximal` | Assets/Code/Scripts/AI/MinMaxAI.cs:12-41 | the result is `NoMove` iff every empty cell is worth -10; otherwise it is an empty cell worth more than -10, of the largest value, and the first such cell in row-major order |
| `MinimaxSpec.NoEmptyCellNoMove` | Assets/Code/Scripts/AI/MinMaxAI.cs:14-40 | a board without a `None` cell yields no move |
| `MinimaxSpec.UnsubscribedTakesFirstEmpty` | Assets/Code/Scripts/AI/MinMaxAI.cs:17-36 | with no handler subscribed and some empty cell, the chosen cell is the first empty cell in row-major order |
| `Grid.EmptiesPlace` | Assets/Code/Scripts/AI/MinMaxAI.cs:64-68 | writing a player's mark into an empty cell removes exactly one empty cell (writing `None` removes none); this is the termination measure of the recursion |
| `Grid.EmptiesZero` | Assets/Code/Scripts/AI/MinMaxAI.cs:126-134 | the count of empty cells is 0 exactly when no cell is `None` |

## Left out

- `GetAvailableBestMove` (MinMaxAI.cs:156-160) is not modelled. It only
  forwards `gridPresenter.Model.GridCells` to `GetBestMove`, with the mark
  defaulting to O, and `GridPresenter` and `GridModel` are not part of this
  model.
- The Unity plumbing is not modelled: `MonoBehaviour`, `IAIStrategy`, and
  subscribing to or unsubscribing from `CheckWinEvent`.
- Several handlers on one event are not modelled. A multicast delegate
  returns the last handler's answer; the model has at most one handler.
- The predicate is a pure function of the board and the mark. Side effects
  inside a handler are not modelled. So the fact that `CheckWin` stops at
  the first winning probe is not visible in the model. The method does
  return at the first hit, as the source does.
- The `depth` parameter is passed along as in the source, but its value is
  never used.
- Running time and the exponential size of the search are not modelled.
- No row, column or diagonal win check is modelled, because the source has
  none.
- The view and command files (`GridView.cs`, `AIMoveCommand.cs`) are not
  part of this model. They are scene wiring and UI commands.
