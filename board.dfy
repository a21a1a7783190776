/**
 * The board of tic-tac-toe/script.js: nine cells in row-major order, the
 * eight winning triples, the win test (`isWinner` / `isWinnerFromState`),
 * the full-board test and the enumeration of empty cells.
 */
module Board {

  /** The two marks; the source writes them as the strings "X" and "O". */
  datatype Player = X | O

  /** A cell holds no mark (the source's "") or one player's mark. */
  datatype Cell = Empty | Mark(player: Player)

  /** A board always has exactly nine cells (`Array(9)`). */
  type Board = s: seq<Cell> | |s| == 9
    witness [Empty, Empty, Empty, Empty, Empty, Empty, Empty, Empty, Empty]

  /** `Array(9).fill("")` */
  const EmptyBoard: Board := [Empty, Empty, Empty, Empty, Empty, Empty, Empty, Empty, Empty]

  /** The player who moves after `p` (the toggle in `switchTurn`). */
  function Other(p: Player): (q: Player)
    ensures q != p
  {
    if p == X then O else X
  }

  lemma OtherInvolutive(p: Player)
    ensures Other(Other(p)) == p
    ensures Other(X) == O && Other(O) == X
  {
  }

  /** `winPatterns`: three rows, three columns, two diagonals. */
  const WinPatterns: seq<seq<nat>> :=
    [[0, 1, 2], [3, 4, 5], [6, 7, 8],
     [0, 3, 6], [1, 4, 7], [2, 5, 8],
     [0, 4, 8], [2, 4, 6]]

  /** `pattern.every(index => state[index] === player)`; an index outside
      the board reads `undefined`, which is never a mark. */
  predicate LineHeld(s: Board, line: seq<nat>, p: Player)
  {
    forall j :: 0 <= j < |line| ==> line[j] < |s| && s[line[j]] == Mark(p)
  }

  /** `isWinnerFromState(state, player)`: `winPatterns.some(...)`. */
  predicate IsWinnerFromState(s: Board, p: Player)
  {
    exists k :: 0 <= k < |WinPatterns| && LineHeld(s, WinPatterns[k], p)
  }

  /** `state.every(cell => cell !== "")` */
  predicate IsFull(s: Board)
  {
    forall i :: 0 <= i < |s| ==> s[i] != Empty
  }

  // ---------------------------------------------------------------------
  // An independent description of a win, by geometry rather than by table.

  /** The cell at (row, col) of the 3x3 grid. */
  function At(s: Board, row: nat, col: nat): Cell
    requires row < 3 && col < 3
  {
    s[3 * row + col]
  }

  predicate RowHeld(s: Board, p: Player, row: nat)
    requires row < 3
  {
    forall col: nat :: col < 3 ==> At(s, row, col) == Mark(p)
  }

  predicate ColumnHeld(s: Board, p: Player, col: nat)
    requires col < 3
  {
    forall row: nat :: row < 3 ==> At(s, row, col) == Mark(p)
  }

  predicate DiagonalHeld(s: Board, p: Player)
  {
    forall d: nat :: d < 3 ==> At(s, d, d) == Mark(p)
  }

  predicate AntiDiagonalHeld(s: Board, p: Player)
  {
    At(s, 0, 2) == Mark(p) && At(s, 1, 1) == Mark(p) && At(s, 2, 0) == Mark(p)
  }

  /** Three of `p`'s marks in a row, a column or a diagonal. */
  predicate HasLine(s: Board, p: Player)
  {
    || (exists row: nat :: row < 3 && RowHeld(s, p, row))
    || (exists col: nat :: col < 3 && ColumnHeld(s, p, col))
    || DiagonalHeld(s, p)
    || AntiDiagonalHeld(s, p)
  }

  lemma TripleHeld(s: Board, a: nat, b: nat, c: nat, p: Player)
    requires a < 9 && b < 9 && c < 9
    ensures LineHeld(s, [a, b, c], p) <==> s[a] == Mark(p) && s[b] == Mark(p) && s[c] == Mark(p)
  {
    var line := [a, b, c];
    assert line[0] == a && line[1] == b && line[2] == c;
    if s[a] == Mark(p) && s[b] == Mark(p) && s[c] == Mark(p) {
      forall j | 0 <= j < |line| ensures line[j] < |s| && s[line[j]] == Mark(p) {
        if j == 0 {} else if j == 1 {} else {}
      }
    }
  }

  /** `p` owns the three cells `a`, `b` and `c`. */
  predicate Owns(s: Board, a: nat, b: nat, c: nat, p: Player)
    requires a < 9 && b < 9 && c < 9
  {
    s[a] == Mark(p) && s[b] == Mark(p) && s[c] == Mark(p)
  }

  /** The table's win test, one entry at a time. */
  lemma TableIffTriples(s: Board, p: Player)
    ensures IsWinnerFromState(s, p) <==>
      || Owns(s, 0, 1, 2, p) || Owns(s, 3, 4, 5, p) || Owns(s, 6, 7, 8, p)
      || Owns(s, 0, 3, 6, p) || Owns(s, 1, 4, 7, p) || Owns(s, 2, 5, 8, p)
      || Owns(s, 0, 4, 8, p) || Owns(s, 2, 4, 6, p)
  {
    TripleHeld(s, 0, 1, 2, p); TripleHeld(s, 3, 4, 5, p); TripleHeld(s, 6, 7, 8, p);
    TripleHeld(s, 0, 3, 6, p); TripleHeld(s, 1, 4, 7, p); TripleHeld(s, 2, 5, 8, p);
    TripleHeld(s, 0, 4, 8, p); TripleHeld(s, 2, 4, 6, p);
    assert IsWinnerFromState(s, p) <==>
      || LineHeld(s, WinPatterns[0], p) || LineHeld(s, WinPatterns[1], p)
      || LineHeld(s, WinPatterns[2], p) || LineHeld(s, WinPatterns[3], p)
      || LineHeld(s, WinPatterns[4], p) || LineHeld(s, WinPatterns[5], p)
      || LineHeld(s, WinPatterns[6], p) || LineHeld(s, WinPatterns[7], p);
  }

  /** A row is held exactly when one of the three row triples is owned. */
  lemma RowsIffTriples(s: Board, p: Player)
    ensures (exists row: nat :: row < 3 && RowHeld(s, p, row)) <==>
      Owns(s, 0, 1, 2, p) || Owns(s, 3, 4, 5, p) || Owns(s, 6, 7, 8, p)
  {
    assert RowHeld(s, p, 0) <==> Owns(s, 0, 1, 2, p) by {
      assert At(s, 0, 0) == s[0] && At(s, 0, 1) == s[1] && At(s, 0, 2) == s[2];
    }
    assert RowHeld(s, p, 1) <==> Owns(s, 3, 4, 5, p) by {
      assert At(s, 1, 0) == s[3] && At(s, 1, 1) == s[4] && At(s, 1, 2) == s[5];
    }
    assert RowHeld(s, p, 2) <==> Owns(s, 6, 7, 8, p) by {
      assert At(s, 2, 0) == s[6] && At(s, 2, 1) == s[7] && At(s, 2, 2) == s[8];
    }
    assert (exists row: nat :: row < 3 && RowHeld(s, p, row))
      <==> RowHeld(s, p, 0) || RowHeld(s, p, 1) || RowHeld(s, p, 2);
  }

  /** A column is held exactly when one of the three column triples is
      owned. */
  lemma ColumnsIffTriples(s: Board, p: Player)
    ensures (exists col: nat :: col < 3 && ColumnHeld(s, p, col)) <==>
      Owns(s, 0, 3, 6, p) || Owns(s, 1, 4, 7, p) || Owns(s, 2, 5, 8, p)
  {
    assert ColumnHeld(s, p, 0) <==> Owns(s, 0, 3, 6, p) by {
      assert At(s, 0, 0) == s[0] && At(s, 1, 0) == s[3] && At(s, 2, 0) == s[6];
    }
    assert ColumnHeld(s, p, 1) <==> Owns(s, 1, 4, 7, p) by {
      assert At(s, 0, 1) == s[1] && At(s, 1, 1) == s[4] && At(s, 2, 1) == s[7];
    }
    assert ColumnHeld(s, p, 2) <==> Owns(s, 2, 5, 8, p) by {
      assert At(s, 0, 2) == s[2] && At(s, 1, 2) == s[5] && At(s, 2, 2) == s[8];
    }
    assert (exists col: nat :: col < 3 && ColumnHeld(s, p, col))
      <==> ColumnHeld(s, p, 0) || ColumnHeld(s, p, 1) || ColumnHeld(s, p, 2);
  }

  /** The win table and the geometric description agree: the source's win
      test holds exactly when `p` owns a whole row, column or diagonal. */
  lemma WinnerIffLine(s: Board, p: Player)
    ensures IsWinnerFromState(s, p) <==> HasLine(s, p)
  {
    TableIffTriples(s, p);
    RowsIffTriples(s, p);
    ColumnsIffTriples(s, p);
    assert DiagonalHeld(s, p) <==> Owns(s, 0, 4, 8, p) by {
      assert At(s, 0, 0) == s[0] && At(s, 1, 1) == s[4] && At(s, 2, 2) == s[8];
    }
    assert AntiDiagonalHeld(s, p) <==> Owns(s, 2, 4, 6, p);
  }

  /** No one has a line on the fresh board. */
  lemma EmptyBoardHasNoWinner(p: Player)
    ensures !IsWinnerFromState(EmptyBoard, p)
    ensures !IsFull(EmptyBoard)
  {
    forall k | 0 <= k < |WinPatterns| ensures !LineHeld(EmptyBoard, WinPatterns[k], p) {
      var line := WinPatterns[k];
      assert |line| == 3 && line[0] < 9;
      assert EmptyBoard[line[0]] == Empty;
    }
    assert EmptyBoard[0] == Empty;
  }

  /** A player with at most one mark on the board has no line: every
      winning triple uses three different cells. */
  lemma SingleMarkNoLine(s: Board, i: nat, p: Player)
    requires i < 9
    requires forall j :: 0 <= j < 9 && j != i ==> s[j] != Mark(p)
    ensures !IsWinnerFromState(s, p)
  {
    forall k | 0 <= k < |WinPatterns| ensures !LineHeld(s, WinPatterns[k], p) {
      var line := WinPatterns[k];
      assert |line| == 3 && line[0] < 9 && line[1] < 9 && line[0] != line[1];
      if line[0] == i {
        assert s[line[1]] != Mark(p);
      } else {
        assert s[line[0]] != Mark(p);
      }
    }
  }

  /** Writing `p`'s mark into a cell never gives the other player a line:
      any line `q` owns afterwards it already owned before. */
  lemma PlacingKeepsOtherLines(s: Board, i: nat, p: Player, q: Player)
    requires i < 9 && q != p
    ensures IsWinnerFromState(s[i := Mark(p)], q) ==> IsWinnerFromState(s, q)
  {
    var t: Board := s[i := Mark(p)];
    if IsWinnerFromState(t, q) {
      var k :| 0 <= k < |WinPatterns| && LineHeld(t, WinPatterns[k], q);
      var line := WinPatterns[k];
      forall j | 0 <= j < |line| ensures line[j] < |s| && s[line[j]] == Mark(q) {
        assert t[line[j]] == Mark(q);
      }
      assert LineHeld(s, line, q);
    }
  }

  // ---------------------------------------------------------------------
  // Empty cells: `state.map((val, i) => val === "" ? i : null).filter(...)`.

  /** The empty cells from index `start` on, in ascending order. */
  function EmptyFrom(s: Board, start: nat): (r: seq<nat>)
    requires start <= |s|
    ensures forall i: nat :: i in r <==> start <= i < |s| && s[i] == Empty
    ensures forall a :: 0 <= a < |r| ==> start <= r[a] < |s|
    ensures forall a, b :: 0 <= a < b < |r| ==> r[a] < r[b]
    decreases |s| - start
  {
    if start == |s| then []
    else if s[start] == Empty then [start] + EmptyFrom(s, start + 1)
    else EmptyFrom(s, start + 1)
  }

  /** The indices of the empty cells, ascending: exactly the cells holding
      no mark, each once. */
  function EmptyIndices(s: Board): (r: seq<nat>)
    ensures forall i: nat :: i in r <==> i < 9 && s[i] == Empty
    ensures forall a, b :: 0 <= a < b < |r| ==> r[a] < r[b]
    ensures r == [] <==> IsFull(s)
  {
    var r := EmptyFrom(s, 0);
    assert r == [] <==> IsFull(s) by {
      if r != [] {
        assert r[0] in r;
      } else {
        forall i | 0 <= i < |s| ensures s[i] != Empty {
          assert i !in r;
        }
      }
    }
    r
  }

  /** The set of empty cells; it shrinks with every move. */
  function EmptyCells(s: Board): set<nat>
  {
    set i: nat | i < 9 && s[i] == Empty
  }

  /** Filling an empty cell removes it, and only it, from the empty cells. */
  lemma FillShrinks(s: Board, i: nat, c: Cell)
    requires i < 9 && s[i] == Empty && c != Empty
    ensures EmptyCells(s[i := c]) == EmptyCells(s) - {i}
    ensures EmptyCells(s[i := c]) < EmptyCells(s)
  {
    assert i in EmptyCells(s);
  }

  lemma {:induction false} EmptyFromFill(s: Board, start: nat, i: nat, c: Cell)
    requires start <= |s| && i < 9 && s[i] == Empty && c != Empty
    ensures start <= i ==> |EmptyFrom(s[i := c], start)| + 1 == |EmptyFrom(s, start)|
    ensures i < start ==> EmptyFrom(s[i := c], start) == EmptyFrom(s, start)
    decreases |s| - start
  {
    if start < |s| {
      EmptyFromFill(s, start + 1, i, c);
    }
  }

  /** Each move leaves exactly one empty cell fewer. */
  lemma EmptyCountFill(s: Board, i: nat, c: Cell)
    requires i < 9 && s[i] == Empty && c != Empty
    ensures |EmptyIndices(s[i := c])| + 1 == |EmptyIndices(s)|
  {
    EmptyFromFill(s, 0, i, c);
  }

  /** The number of cells holding `c`. */
  function Count(s: Board, c: Cell): nat
  {
    multiset(s)[c]
  }

  /** The fresh board holds no mark. */
  lemma EmptyBoardCounts()
    ensures Count(EmptyBoard, Mark(X)) == 0 && Count(EmptyBoard, Mark(O)) == 0
  {
    assert multiset(EmptyBoard) == multiset{Empty, Empty, Empty, Empty, Empty, Empty, Empty, Empty, Empty};
  }

  /** Writing `p`'s mark into an empty cell adds one mark of `p` and
      leaves the other player's marks as they were. */
  lemma CountFill(s: Board, i: nat, p: Player)
    requires i < 9 && s[i] == Empty
    ensures Count(s[i := Mark(p)], Mark(X)) == Count(s, Mark(X)) + (if p == X then 1 else 0)
    ensures Count(s[i := Mark(p)], Mark(O)) == Count(s, Mark(O)) + (if p == O then 1 else 0)
  {
    assert multiset(s[i := Mark(p)]) == multiset(s) - multiset{Empty} + multiset{Mark(p)};
  }
}
