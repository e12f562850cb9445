/**
 Win detection (`checkWinner`): the board is scanned against eight fixed
 triples of cells, and the mark of the first complete triple is reported.
 */
module Winner {
  import opened Board

  datatype Line = Line(a: nat, b: nat, c: nat)

  /** The eight winning triples in the order the script lists them: three rows, three columns, two diagonals. */
  const Lines: seq<Line> := [
    Line(0, 1, 2), Line(3, 4, 5), Line(6, 7, 8),
    Line(0, 3, 6), Line(1, 4, 7), Line(2, 5, 8),
    Line(0, 4, 8), Line(2, 4, 6)
  ]

  /** Triple `k` holds three equal marks. Its first cell must be non-empty, as in the script's truthiness test. */
  predicate Complete(b: Grid, k: nat)
    requires WellFormed(b) && k < |Lines|
  {
    var l := Lines[k];
    b[l.a] != None && b[l.a] == b[l.b] && b[l.a] == b[l.c]
  }

  /** Triple `k` is filled by `m` in all three cells. */
  predicate Owns(b: Grid, k: nat, m: Mark)
    requires WellFormed(b) && k < |Lines|
  {
    var l := Lines[k];
    b[l.a] == Some(m) && b[l.b] == Some(m) && b[l.c] == Some(m)
  }

  /** Triple `k` is the first complete one at or after position `from` in the list. */
  predicate FirstCompleteFrom(b: Grid, from: nat, k: nat)
    requires WellFormed(b) && from <= k < |Lines|
  {
    Complete(b, k) && forall j :: from <= j < k ==> !Complete(b, j)
  }

  /** The scan of `checkWinner`, starting at list position `k`. */
  function WinnerFrom(b: Grid, k: nat): (r: Option<Mark>)
    requires WellFormed(b) && k <= |Lines|
    decreases |Lines| - k
    ensures r == None <==> forall j :: k <= j < |Lines| ==> !Complete(b, j)
    ensures r != None ==>
      exists j :: k <= j < |Lines| && FirstCompleteFrom(b, k, j) && Owns(b, j, r.value)
  {
    if k == |Lines| then None
    else if Complete(b, k) then
      assert FirstCompleteFrom(b, k, k) && Owns(b, k, b[Lines[k].a].value);
      b[Lines[k].a]
    else WinnerFrom(b, k + 1)
  }

  /**
   `checkWinner`: mark `m` exactly when the first complete triple in the
   fixed list is filled by `m`, and nothing exactly when no triple is filled
   by either mark.
   */
  function CheckWinner(b: Grid): (r: Option<Mark>)
    requires WellFormed(b)
    ensures r == None <==> forall k :: 0 <= k < |Lines| ==> !Owns(b, k, O) && !Owns(b, k, X)
    ensures forall m: Mark :: r == Some(m) <==>
      exists k :: 0 <= k < |Lines| && FirstCompleteFrom(b, 0, k) && Owns(b, k, m)
  {
    FirstOwnedLineDecides(b, O);
    FirstOwnedLineDecides(b, X);
    WinnerFrom(b, 0)
  }

  /** The full scan reports `m` exactly when the first complete triple is filled by `m`, and nothing when no triple is filled. */
  lemma FirstOwnedLineDecides(b: Grid, m: Mark)
    requires WellFormed(b)
    ensures WinnerFrom(b, 0) == None <==> forall k :: 0 <= k < |Lines| ==> !Owns(b, k, O) && !Owns(b, k, X)
    ensures WinnerFrom(b, 0) == Some(m) <==>
      exists k :: 0 <= k < |Lines| && FirstCompleteFrom(b, 0, k) && Owns(b, k, m)
  {
    forall k | 0 <= k < |Lines|
      ensures Complete(b, k) <==> Owns(b, k, O) || Owns(b, k, X)
    {
      var l := Lines[k];
      if Complete(b, k) {
        if b[l.a].value == O {
          assert Owns(b, k, O);
        } else {
          assert Owns(b, k, X);
        }
      }
      if Owns(b, k, O) || Owns(b, k, X) {
        assert b[l.a] != None && b[l.a] == b[l.b] == b[l.c];
      }
    }
    if WinnerFrom(b, 0) != Some(m) {
      forall k | 0 <= k < |Lines| && FirstCompleteFrom(b, 0, k)
        ensures !Owns(b, k, m)
      {
        var j :| 0 <= j < |Lines| && FirstCompleteFrom(b, 0, j) && Owns(b, j, WinnerFrom(b, 0).value);
        assert !(j < k) && !(k < j);
      }
    }
  }

  /** A board full of marks with no three in a row is reported as having no winner. */
  lemma FullBoardWithoutLine()
    ensures var b := [Some(X), Some(O), Some(X), Some(X), Some(O), Some(O), Some(O), Some(X), Some(X)];
            CheckWinner(b) == None && None !in b
  {
  }

  /** When two triples are complete, the one listed first decides: here row 1 (O) beats row 2 (X). */
  lemma FirstListedTripleWins()
    ensures CheckWinner([None, None, None, Some(O), Some(O), Some(O), Some(X), Some(X), Some(X)]) == Some(O)
  {
  }
}
