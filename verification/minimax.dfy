/**
 Exhaustive minimax (`minimax(b, isAI)`): +1 when the computer (X) has won,
 -1 when the human (O) has won, 0 on a full board without a winner, and
 otherwise the best child score for the side to move, X maximising and O
 minimising. Recursion ends because every child has one empty cell fewer.
 */
module Search {
  import opened Board
  import opened Winner

  /** The board after the side to move fills cell `i`. */
  function Child(b: Grid, i: nat, isAI: bool): (c: Grid)
    requires WellFormed(b) && i < Size
    ensures WellFormed(c)
  {
    b[i := Some(Mover(isAI))]
  }

  /** Score of the child where the side to move took cell `i`, the other side then moving. */
  function ChildScore(b: Grid, i: nat, isAI: bool): int
    requires WellFormed(b) && i < Size && b[i] == None
    decreases Count(b, None), 0
  {
    FillDecreasesEmpty(b, i, Mover(isAI));
    Minimax(Child(b, i, isAI), !isAI)
  }

  /** Largest element (`Math.max(...s)`). */
  function MaxOf(s: seq<int>): (r: int)
    requires |s| > 0
    ensures r in s
    ensures forall k :: 0 <= k < |s| ==> s[k] <= r
  {
    if |s| == 1 then s[0]
    else var m := MaxOf(s[1..]); if s[0] > m then s[0] else m
  }

  /** Smallest element (`Math.min(...s)`). */
  function MinOf(s: seq<int>): (r: int)
    requires |s| > 0
    ensures r in s
    ensures forall k :: 0 <= k < |s| ==> r <= s[k]
  {
    if |s| == 1 then s[0]
    else var m := MinOf(s[1..]); if s[0] < m then s[0] else m
  }

  /**
   The `scores` list the loop builds over cells 0..n-1: for each empty cell
   in index order, the score of the child where the side to move took it.
   */
  function Scores(b: Grid, isAI: bool, n: nat): (r: seq<int>)
    requires WellFormed(b) && n <= Size
    decreases Count(b, None), n
    ensures |r| == Count(b[..n], None)
    ensures forall k :: 0 <= k < |r| ==> -1 <= r[k] <= 1
  {
    if n == 0 then []
    else
      assert b[..n][..n - 1] == b[..n - 1];
      var prev := Scores(b, isAI, n - 1);
      if b[n - 1] == None then prev + [ChildScore(b, n - 1, isAI)]
      else prev
  }

  function Minimax(b: Grid, isAI: bool): (r: int)
    requires WellFormed(b)
    decreases Count(b, None), Size + 1
    ensures -1 <= r <= 1
  {
    var winner := CheckWinner(b);
    if winner == Some(X) then 1
    else if winner == Some(O) then -1
    else if None !in b then 0
    else
      assert b[..Size] == b;
      CountOccurs(b, None);
      var scores := Scores(b, isAI, Size);
      if isAI then MaxOf(scores) else MinOf(scores)
  }

  /** Every empty cell below `n` contributes its child's score to the list. */
  lemma {:induction false} ScoresHoldChildScores(b: Grid, isAI: bool, n: nat)
    requires WellFormed(b) && n <= Size
    ensures forall j :: 0 <= j < n && b[j] == None ==> ChildScore(b, j, isAI) in Scores(b, isAI, n)
  {
    if n > 0 {
      ScoresHoldChildScores(b, isAI, n - 1);
      var prev := Scores(b, isAI, n - 1);
      if b[n - 1] == None {
        assert Scores(b, isAI, n) == prev + [ChildScore(b, n - 1, isAI)];
      } else {
        assert Scores(b, isAI, n) == prev;
      }
    }
  }

  /** The list holds nothing but scores of children reached through empty cells below `n`. */
  lemma {:induction false} ScoresOnlyChildScores(b: Grid, isAI: bool, n: nat)
    requires WellFormed(b) && n <= Size
    ensures forall x :: x in Scores(b, isAI, n) ==>
              exists j :: 0 <= j < n && b[j] == None && x == ChildScore(b, j, isAI)
  {
    if n > 0 {
      ScoresOnlyChildScores(b, isAI, n - 1);
      var prev := Scores(b, isAI, n - 1);
      forall x | x in Scores(b, isAI, n)
        ensures exists j :: 0 <= j < n && b[j] == None && x == ChildScore(b, j, isAI)
      {
        if x !in prev {
          assert b[n - 1] == None && x == ChildScore(b, n - 1, isAI);
        }
      }
    }
  }

  /** A position with a winner, or a full board, scores the same whoever is to move. */
  lemma TerminalIgnoresMover(b: Grid)
    requires WellFormed(b)
    ensures CheckWinner(b) == Some(X) ==> Minimax(b, true) == 1 && Minimax(b, false) == 1
    ensures CheckWinner(b) == Some(O) ==> Minimax(b, true) == -1 && Minimax(b, false) == -1
    ensures CheckWinner(b) == None && None !in b ==> Minimax(b, true) == 0 && Minimax(b, false) == 0
  {
  }

  /**
   In a position with no winner and an empty cell, the score bounds every
   child score from above when X is to move, and from below when O is.
   */
  lemma MinimaxBoundsChildren(b: Grid, isAI: bool)
    requires WellFormed(b) && CheckWinner(b) == None && None in b
    ensures forall j :: 0 <= j < Size && b[j] == None ==>
              if isAI then ChildScore(b, j, isAI) <= Minimax(b, isAI)
              else Minimax(b, isAI) <= ChildScore(b, j, isAI)
  {
    assert b[..Size] == b;
    CountOccurs(b, None);
    ScoresHoldChildScores(b, isAI, Size);
  }

  /**
   In a position with no winner and an empty cell, some child reached through
   an empty cell has exactly the position's score: with the bound above, the
   score is the maximum (X to move) or the minimum (O to move) over the children.
   */
  lemma MinimaxAttainedByChild(b: Grid, isAI: bool)
    requires WellFormed(b) && CheckWinner(b) == None && None in b
    ensures exists j :: 0 <= j < Size && b[j] == None && ChildScore(b, j, isAI) == Minimax(b, isAI)
  {
    assert b[..Size] == b;
    CountOccurs(b, None);
    ScoresOnlyChildScores(b, isAI, Size);
    assert Minimax(b, isAI) in Scores(b, isAI, Size);
  }

  /**
   The script's search in place: each empty cell is filled, searched and
   cleared again on one shared board. The board is threaded through as a
   value, and comes back identical to the one passed in.
   */
  method SearchInPlace(board: Grid, isAI: bool) returns (score: int, restored: Grid)
    requires WellFormed(board)
    decreases Count(board, None)
    ensures restored == board
    ensures score == Minimax(board, isAI)
  {
    var winner := CheckWinner(board);
    if winner == Some(X) { return 1, board; }
    if winner == Some(O) { return -1, board; }
    if None !in board { return 0, board; }

    var b := board;
    var scores: seq<int> := [];
    for i := 0 to Size
      invariant b == board
      invariant scores == Scores(board, isAI, i)
    {
      if b[i] == None {
        FillDecreasesEmpty(b, i, Mover(isAI));
        b := b[i := Some(Mover(isAI))];
        var s;
        s, b := SearchInPlace(b, !isAI);
        scores := scores + [s];
        b := b[i := None];
      }
    }
    assert board[..Size] == board;
    CountOccurs(board, None);
    score := if isAI then MaxOf(scores) else MinOf(scores);
    restored := b;
  }
}
