/**
 Computer move selection (`bestMove`): every empty cell is tried for X in
 index order and scored by minimax with the human to move; the first cell
 with a strictly higher score than all earlier ones is kept, so ties go to
 the lowest index. A full board gives no move.
 */
module Selector {
  import opened Board
  import opened Winner
  import opened Search

  /** The running best the script starts from before any cell is scored. */
  const NoScore: int := -999

  /** The score `bestMove` gives cell `i`: X placed there, the human to move. */
  function MoveScore(b: Grid, i: nat): int
    requires WellFormed(b) && i < Size && b[i] == None
  {
    ChildScore(b, i, true)
  }

  /**
   Cell `i` is the move the script must pick: it is empty, no empty cell
   scores higher, and every empty cell before it scores strictly lower.
   */
  ghost predicate IsBestMove(b: Grid, i: nat)
    requires WellFormed(b)
  {
    && i < Size && b[i] == None
    && (forall j :: 0 <= j < Size && b[j] == None ==> MoveScore(b, j) <= MoveScore(b, i))
    && (forall j :: 0 <= j < i && b[j] == None ==> MoveScore(b, j) < MoveScore(b, i))
  }

  /** What the loop has established after looking at cells 0..i-1 (the same conditions, restricted to a prefix). */
  ghost predicate ScanState(b: Grid, i: nat, best: int, move: Option<nat>)
    requires WellFormed(b) && i <= Size
  {
    match move
    case None =>
      best == NoScore && forall j :: 0 <= j < i ==> b[j] != None
    case Some(m) =>
      && m < i && b[m] == None && best == MoveScore(b, m)
      && (forall j :: 0 <= j < i && b[j] == None ==> MoveScore(b, j) <= best)
      && (forall j :: 0 <= j < m && b[j] == None ==> MoveScore(b, j) < best)
  }

  /** The loop of `bestMove` from cell `i` on, carrying the best score so far and its cell. */
  function Scan(b: Grid, i: nat, best: int, move: Option<nat>): (r: Option<nat>)
    requires WellFormed(b) && i <= Size
    decreases Size - i
    ensures ScanState(b, i, best, move) ==>
      (r == None <==> None !in b) && (r != None ==> IsBestMove(b, r.value))
  {
    if i == Size then
      ScanComplete(b, best, move);
      move
    else
      ScanStep(b, i, best, move);
      if b[i] == None then
        var score := MoveScore(b, i);
        if score > best then Scan(b, i + 1, score, Some(i))
        else Scan(b, i + 1, best, move)
      else Scan(b, i + 1, best, move)
  }

  /** One iteration of the loop keeps the scan conditions, now covering cell `i` too. */
  lemma ScanStep(b: Grid, i: nat, best: int, move: Option<nat>)
    requires WellFormed(b) && i < Size
    ensures ScanState(b, i, best, move) && b[i] == None && MoveScore(b, i) > best ==>
              ScanState(b, i + 1, MoveScore(b, i), Some(i))
    ensures ScanState(b, i, best, move) && (b[i] != None || MoveScore(b, i) <= best) ==>
              ScanState(b, i + 1, best, move)
  {
  }

  /** Once every cell has been looked at, the scan conditions are the specification of `bestMove`. */
  lemma ScanComplete(b: Grid, best: int, move: Option<nat>)
    requires WellFormed(b)
    ensures ScanState(b, Size, best, move) ==>
      (move == None <==> None !in b) && (move != None ==> IsBestMove(b, move.value))
  {
  }

  /** `bestMove` on board `b`: no move exactly on a full board, otherwise the best move. */
  function BestMove(b: Grid): (r: Option<nat>)
    requires WellFormed(b)
    ensures r == None <==> None !in b
    ensures r != None ==> IsBestMove(b, r.value)
  {
    Scan(b, 0, NoScore, None)
  }

  /** The best move is determined uniquely: the tie-break leaves no choice. */
  lemma BestMoveUnique(b: Grid, i: nat, j: nat)
    requires WellFormed(b) && IsBestMove(b, i) && IsBestMove(b, j)
    ensures i == j
  {
  }

  /**
   The script's loop in place on the shared board: X is written into each
   empty cell, the position searched, and the cell cleared again. It picks
   the best move and hands the board back unchanged.
   */
  method BestMoveInPlace(board: Grid) returns (move: Option<nat>, restored: Grid)
    requires WellFormed(board)
    ensures restored == board
    ensures move == None <==> None !in board
    ensures move != None ==> IsBestMove(board, move.value)
    ensures move == BestMove(board)
  {
    var bestScore := NoScore;
    move := None;
    var b := board;
    for i := 0 to Size
      invariant b == board
      invariant ScanState(board, i, bestScore, move)
    {
      if b[i] == None {
        b := b[i := Some(X)];
        var score;
        score, b := SearchInPlace(b, false);
        b := b[i := None];
        if score > bestScore {
          bestScore := score;
          move := Some(i);
        }
      }
    }
    restored := b;
    if move != None {
      BestMoveUnique(board, move.value, BestMove(board).value);
    }
  }

  /**
   With X on 0, 2, 4 and O on 1, 3, 5, both 6 and 8 complete a line for X;
   the script takes 6, the lower index.
   */
  lemma TakesLowestWinningCell(b: Grid)
    requires b == [Some(X), Some(O), Some(X), Some(O), Some(X), Some(O), None, None, None]
    ensures BestMove(b) == Some(6)
  {
    var c := Child(b, 6, true);
    assert c == [Some(X), Some(O), Some(X), Some(O), Some(X), Some(O), Some(X), None, None];
    assert FirstCompleteFrom(c, 0, 7) && Owns(c, 7, X);
    TerminalIgnoresMover(c);
    assert MoveScore(b, 6) == Minimax(c, false) == 1;
    var r := BestMove(b);
    assert None in b;
    assert r != None && IsBestMove(b, r.value);
    assert IsBestMove(b, 6);
    BestMoveUnique(b, r.value, 6);
  }
}
