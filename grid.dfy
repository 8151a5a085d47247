/**
 The board the move chooser works on: marks, board values, placing a mark,
 counting empty cells, and the value a mutable grid holds at a given moment.
 */
module Grid {

  /** Ownership tag of a cell; `None` is an empty cell. */
  datatype PlayerMark = None | X | O

  /** A board value, row by row. Row `r` has `|b[r]|` columns. */
  type Board = seq<seq<PlayerMark>>

  /** The cell chosen by the AI, or no cell at all (the source's `null`). */
  datatype Move = NoMove | Cell(row: nat, col: nat)

  predicate InBounds(b: Board, r: int, c: int)
  {
    0 <= r < |b| && 0 <= c < |b[r]|
  }

  predicate IsEmptyCell(b: Board, r: int, c: int)
  {
    InBounds(b, r, c) && b[r][c] == None
  }

  /** Row-major order: cell (r, c) is visited before position (i, j). */
  predicate Before(r: int, c: int, i: int, j: int)
  {
    r < i || (r == i && c < j)
  }

  /** A position a row-major scan can stop at: inside a row, or just past the last row. */
  predicate ScanPoint(b: Board, i: nat, j: nat)
  {
    (i < |b| && j <= |b[i]|) || (i == |b| && j == 0)
  }

  /** The board with mark `m` written into cell (r, c). */
  function Place(b: Board, r: int, c: int, m: PlayerMark): (b': Board)
    requires InBounds(b, r, c)
  {
    b[r := b[r][c := m]]
  }

  /** Number of empty cells of the board. */
  function Empties(b: Board): (n: nat)
  {
    if |b| == 0 then 0 else multiset(b[0])[None] + Empties(b[1..])
  }

  /** Some cell of the board is empty. */
  predicate MovesLeft(b: Board)
  {
    exists r, c | 0 <= r < |b| && 0 <= c < |b[r]| :: b[r][c] == None
  }

  /** Filling an empty cell with a player's mark removes exactly one empty cell. */
  lemma {:induction false} EmptiesPlace(b: Board, r: int, c: int, m: PlayerMark)
    requires IsEmptyCell(b, r, c)
    ensures Empties(Place(b, r, c, m)) == Empties(b) - (if m == None then 0 else 1)
  {
    var b' := Place(b, r, c, m);
    if r == 0 {
      assert b'[1..] == b[1..];
      assert b'[0] == b[0][c := m];
      assert multiset(b'[0]) == multiset(b[0]) - multiset{None} + multiset{m};
    } else {
      assert b[1..][r - 1] == b[r];
      assert b'[1..] == Place(b[1..], r - 1, c, m);
      EmptiesPlace(b[1..], r - 1, c, m);
    }
  }

  /** A board with no empty cell has no cell counted by `Empties`, and conversely. */
  lemma {:induction false} EmptiesZero(b: Board)
    ensures Empties(b) == 0 <==> !MovesLeft(b)
  {
    if |b| > 0 {
      EmptiesZero(b[1..]);
      if MovesLeft(b[1..]) {
        var r, c :| 0 <= r < |b[1..]| && 0 <= c < |b[1..][r]| && b[1..][r][c] == None;
        assert b[r + 1][c] == None;
      }
      if MovesLeft(b) {
        var r, c :| 0 <= r < |b| && 0 <= c < |b[r]| && b[r][c] == None;
        if r == 0 {
          assert b[0][c] in multiset(b[0]);
        } else {
          assert b[1..][r - 1][c] == None;
        }
      }
      if None in multiset(b[0]) {
        var c :| 0 <= c < |b[0]| && b[0][c] == None;
        assert b[0][c] == None;
      }
    }
  }

  /** The board value a grid holds right now. */
  function Snapshot(g: array2<PlayerMark>): (b: Board)
    reads g
    ensures Mirrors(g, b)
  {
    seq(g.Length0, r requires 0 <= r < g.Length0 reads g =>
      seq(g.Length1, c requires 0 <= c < g.Length1 reads g => g[r, c]))
  }

  /** Grid `g` holds board `b`, cell by cell. */
  predicate Mirrors(g: array2<PlayerMark>, b: Board)
    reads g
  {
    Fits(g, b) &&
    forall r, c :: 0 <= r < g.Length0 && 0 <= c < g.Length1 ==> g[r, c] == b[r][c]
  }

  /** Board `b` has the dimensions of grid `g`. */
  predicate Fits(g: array2<PlayerMark>, b: Board)
  {
    |b| == g.Length0 && forall r :: 0 <= r < |b| ==> |b[r]| == g.Length1
  }

  /** A grid holds exactly one board value: its snapshot. */
  lemma MirrorsSnapshot(g: array2<PlayerMark>, b: Board)
    requires Mirrors(g, b)
    ensures Snapshot(g) == b
  {
    var s := Snapshot(g);
    forall r | 0 <= r < |b|
      ensures s[r] == b[r]
    {
      assert forall c :: 0 <= c < |b[r]| ==> s[r][c] == g[r, c];
    }
  }

  /** A grid has an empty cell exactly when the board it holds has one. */
  lemma MirrorsMovesLeft(g: array2<PlayerMark>, b: Board)
    requires Mirrors(g, b)
    ensures MovesLeft(b) <==> exists r, c :: 0 <= r < g.Length0 && 0 <= c < g.Length1 && g[r, c] == None
  {
    if MovesLeft(b) {
      var r, c :| 0 <= r < |b| && 0 <= c < |b[r]| && b[r][c] == None;
      assert g[r, c] == None;
    }
  }
}
