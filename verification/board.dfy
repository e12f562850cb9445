/**
 The 3x3 board of the hand-gesture tic-tac-toe game: nine cells, each empty
 (`None`, the script's `null`) or holding a mark. `O` is the human player and
 `X` is the computer.
 */
module Board {

  datatype Option<+T> = None | Some(value: T)

  /** The two marks; the script stores them as the strings "O" and "X". */
  datatype Mark = O | X

  type Cell = Option<Mark>

  /** A board is a sequence of cells indexed 0..8, row by row. */
  type Grid = seq<Cell>

  const Size: nat := 9

  predicate WellFormed(b: Grid) {
    |b| == Size
  }

  /** The all-empty board the script starts from (`Array(9).fill(null)`). */
  function EmptyBoard(): (b: Grid)
    ensures WellFormed(b)
    ensures forall i :: 0 <= i < |b| ==> b[i] == None
  {
    [None, None, None, None, None, None, None, None, None]
  }

  /** The mark placed by the side to move: the computer when `isAI`, else the human. */
  function Mover(isAI: bool): Mark {
    if isAI then X else O
  }

  /** Number of cells of `s` equal to `v`. */
  function Count(s: seq<Cell>, v: Cell): nat
  {
    if |s| == 0 then 0
    else Count(s[..|s| - 1], v) + (if s[|s| - 1] == v then 1 else 0)
  }

  /** Count is bounded by length, and is positive exactly when `v` occurs. */
  lemma {:induction false} CountOccurs(s: seq<Cell>, v: Cell)
    ensures Count(s, v) <= |s|
    ensures v in s <==> Count(s, v) > 0
  {
    if |s| > 0 {
      CountOccurs(s[..|s| - 1], v);
      assert s == s[..|s| - 1] + [s[|s| - 1]];
    }
  }

  /** Overwriting one cell changes each count by at most the cell that left and the one that came. */
  lemma {:induction false} CountUpdate(s: seq<Cell>, i: nat, w: Cell, v: Cell)
    requires i < |s|
    ensures Count(s[i := w], v)
         == Count(s, v) - (if s[i] == v then 1 else 0) + (if w == v then 1 else 0)
  {
    var n := |s| - 1;
    if i == n {
      assert s[i := w][..n] == s[..n];
    } else {
      assert s[i := w][..n] == s[..n][i := w];
      CountUpdate(s[..n], i, w, v);
    }
  }

  /** Filling an empty cell leaves one empty cell fewer: the measure the search decreases on. */
  lemma FillDecreasesEmpty(b: Grid, i: nat, m: Mark)
    requires i < |b| && b[i] == None
    ensures Count(b[i := Some(m)], None) == Count(b, None) - 1
    ensures Count(b, None) > 0
  {
    CountUpdate(b, i, Some(m), None);
  }
}
