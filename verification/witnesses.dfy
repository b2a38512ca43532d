/** Concrete chromosomes that pin down what the fitness and the fill do and do
    not guarantee: the solved grid of `Main.java` scores zero, a grid with a
    repeated digit in a row also scores zero, and the greedy fill can repeat a
    digit within a row. */
module Witnesses {
  import opened Lists
  import opened Draws
  import opened SudokuChromosome
  import opened Fitness

  /** The solution grid `Main.java` writes out. */
  function SolvedGrid(): (g: seq<seq<int>>)
    ensures IsGrid(g)
  {
    [ [5, 3, 4, 6, 7, 8, 9, 1, 2],
      [6, 7, 2, 1, 9, 5, 3, 4, 8],
      [1, 9, 8, 3, 4, 2, 5, 6, 7],
      [8, 5, 9, 7, 6, 1, 4, 2, 3],
      [4, 2, 6, 8, 5, 3, 7, 9, 1],
      [7, 1, 3, 9, 2, 4, 8, 5, 6],
      [9, 6, 1, 5, 3, 7, 2, 8, 4],
      [2, 8, 7, 4, 1, 9, 6, 3, 5],
      [3, 4, 5, 2, 8, 6, 1, 7, 9] ]
  }

  /** The grid of zeros: no clue at all. */
  function BlankGrid(): (g: seq<seq<int>>)
    ensures IsGrid(g)
    ensures forall i, j :: 0 <= i < 9 && 0 <= j < 9 ==> g[i][j] == 0
  {
    seq(9, _ => seq(9, _ => 0))
  }

  /** Column `c` of a raw grid. */
  function GridColumn(g: seq<seq<int>>, c: int): seq<int>
    requires IsGrid(g) && 0 <= c < 9
  {
    [g[0][c], g[1][c], g[2][c], g[3][c], g[4][c], g[5][c], g[6][c], g[7][c], g[8][c]]
  }

  /** The box of a raw grid whose top-left cell is (r, c), row by row. */
  function GridBox(g: seq<seq<int>>, r: int, c: int): seq<int>
    requires IsGrid(g) && 0 <= r < 7 && 0 <= c < 7
  {
    [g[r][c], g[r][c + 1], g[r][c + 2],
     g[r + 1][c], g[r + 1][c + 1], g[r + 1][c + 2],
     g[r + 2][c], g[r + 2][c + 1], g[r + 2][c + 2]]
  }

  /** A grid whose columns and boxes are each duplicate-free. */
  predicate ColumnsAndBoxesOk(g: seq<seq<int>>)
    requires IsGrid(g)
  {
    && (forall c :: 0 <= c < 9 ==> Distinct(GridColumn(g, c)))
    && (forall i, j :: 0 <= i < 3 && 0 <= j < 3 ==> Distinct(GridBox(g, 3 * i, 3 * j)))
  }

  /** A chromosome whose effective values form a grid with duplicate-free
      columns and boxes scores zero. */
  lemma ScoreOfGrid(s: Sudoku, g: seq<seq<int>>)
    requires WellFormed(s) && IsGrid(g) && ColumnsAndBoxesOk(g)
    requires forall r, c :: 0 <= r < 9 && 0 <= c < 9 ==> CellValue(s, r, c) == g[r][c]
    ensures Score(s) == 0
  {
    forall c | 0 <= c < 9
      ensures ColumnValues(s, c) == GridColumn(g, c)
    {
    }
    forall b | 0 <= b < 9
      ensures Distinct(BoxValues(s, b))
    {
      assert BoxValues(s, b) == GridBox(g, 3 * (b / 3), 3 * (b % 3));
    }
    ColumnsAndBoxesByLists(s);
    ScoreZeroIff(s);
  }

  lemma SolvedGridOk()
    ensures ColumnsAndBoxesOk(SolvedGrid())
  {
    forall c | 0 <= c < 9
      ensures Distinct(GridColumn(SolvedGrid(), c))
    {
      SolvedColumnOk(c);
    }
    forall i, j | 0 <= i < 3 && 0 <= j < 3
      ensures Distinct(GridBox(SolvedGrid(), 3 * i, 3 * j))
    {
      SolvedBoxOk(i, j);
    }
  }

  lemma SolvedColumnOk(c: int)
    requires 0 <= c < 9
    ensures Distinct(GridColumn(SolvedGrid(), c))
  {
    if c < 5 {
      SolvedLeftColumnOk(c);
    } else {
      SolvedRightColumnOk(c);
    }
  }

  lemma SolvedLeftColumnOk(c: int)
    requires 0 <= c < 5
    ensures Distinct(GridColumn(SolvedGrid(), c))
  {
    if c == 0 {
    } else if c == 1 {
    } else if c == 2 {
    } else if c == 3 {
    } else {
    }
  }

  lemma SolvedRightColumnOk(c: int)
    requires 5 <= c < 9
    ensures Distinct(GridColumn(SolvedGrid(), c))
  {
    if c == 5 {
    } else if c == 6 {
    } else if c == 7 {
    } else {
    }
  }

  lemma SolvedBoxOk(i: int, j: int)
    requires 0 <= i < 3 && 0 <= j < 3
    ensures Distinct(GridBox(SolvedGrid(), 3 * i, 3 * j))
  {
    if i == 0 && j == 0 {
    } else if i == 0 && j == 1 {
    } else if i == 0 && j == 2 {
    } else if i == 1 && j == 0 {
    } else if i == 1 && j == 1 {
    } else if i == 1 && j == 2 {
    } else if i == 2 && j == 0 {
    } else if i == 2 && j == 1 {
    } else {
    }
  }

  /** The solved grid given entirely as clues scores the goal, zero. */
  lemma SolvedGridScoresZero()
    ensures Score(NewSudoku(SolvedGrid())) == 0
  {
    var s := NewSudoku(SolvedGrid());
    assert forall r, c :: 0 <= r < 9 && 0 <= c < 9 ==> CellValue(s, r, c) == SolvedGrid()[r][c];
    SolvedGridOk();
    ScoreOfGrid(s, SolvedGrid());
  }

  /** The solved grid with the first two cells of column 0 exchanged: its
      columns and boxes are still duplicate-free, rows 0 and 1 are not. */
  function SwappedGrid(): (g: seq<seq<int>>)
    ensures IsGrid(g)
  {
    [ [6, 3, 4, 6, 7, 8, 9, 1, 2],
      [5, 7, 2, 1, 9, 5, 3, 4, 8],
      [1, 9, 8, 3, 4, 2, 5, 6, 7],
      [8, 5, 9, 7, 6, 1, 4, 2, 3],
      [4, 2, 6, 8, 5, 3, 7, 9, 1],
      [7, 1, 3, 9, 2, 4, 8, 5, 6],
      [9, 6, 1, 5, 3, 7, 2, 8, 4],
      [2, 8, 7, 4, 1, 9, 6, 3, 5],
      [3, 4, 5, 2, 8, 6, 1, 7, 9] ]
  }

  lemma SwappedGridOk()
    ensures ColumnsAndBoxesOk(SwappedGrid())
  {
    var g, h := SolvedGrid(), SwappedGrid();
    SolvedGridOk();
    forall c | 0 <= c < 9
      ensures Distinct(GridColumn(h, c))
    {
      if c == 0 {
        assert GridColumn(h, 0) == [6, 5, 1, 8, 4, 7, 9, 2, 3];
      } else {
        assert GridColumn(h, c) == GridColumn(g, c);
      }
    }
    forall i, j | 0 <= i < 3 && 0 <= j < 3
      ensures Distinct(GridBox(h, 3 * i, 3 * j))
    {
      if i == 0 && j == 0 {
        assert GridBox(h, 0, 0) == [6, 3, 4, 5, 7, 2, 1, 9, 8];
      } else {
        assert GridBox(h, 3 * i, 3 * j) == GridBox(g, 3 * i, 3 * j);
      }
    }
  }

  /** The fitness never compares cells of one row: a chromosome whose row 0
      holds 6 twice still scores the goal, zero. */
  lemma RowRepeatScoresZero()
    ensures var s := Sudoku(BlankGrid(), SwappedGrid());
            WellFormed(s) && Score(s) == 0 && CellValue(s, 0, 0) == 6 && CellValue(s, 0, 3) == 6
  {
    SwappedGridOk();
    CandidatesOnly(SwappedGrid());
  }

  /** Without clues, every cell's effective value is its candidate, and a
      candidate grid with duplicate-free columns and boxes scores zero. */
  lemma CandidatesOnly(g: seq<seq<int>>)
    requires IsGrid(g) && ColumnsAndBoxesOk(g)
    ensures WellFormed(Sudoku(BlankGrid(), g))
    ensures forall r, c :: 0 <= r < 9 && 0 <= c < 9 ==> CellValue(Sudoku(BlankGrid(), g), r, c) == g[r][c]
    ensures Score(Sudoku(BlankGrid(), g)) == 0
  {
    ScoreOfGrid(Sudoku(BlankGrid(), g), g);
  }

  /** Draws that always select the first index. */
  function FirstIndex(): (f: CellDraws)
    ensures ValidCellDraws(f)
  {
    (r: int, c: int) => (n: nat) => 0
  }

  /** On a grid without clues every legal-digit list is all nine digits, so
      the fill's choice at any cell under `FirstIndex` is 1. */
  lemma BlankFillValue(i: int, j: int)
    requires InGrid(i, j)
    ensures FillValue(NewSudoku(BlankGrid()), i, j, FirstIndex()(i, j), FirstIndex()(i, j)) == 1
  {
    BlankUnfilled(i, j);
    KeepSelf(Digits());
  }

  lemma BlankUnfilled(i: int, j: int)
    requires InGrid(i, j)
    ensures var s := NewSudoku(BlankGrid());
            UnfilledInRow(s, i) == Digits() && UnfilledInColumn(s, j) == Digits() && UnfilledInBox(s, i, j) == Digits()
  {
    var s := NewSudoku(BlankGrid());
    assert forall d :: d in s.clues[i] ==> d == 0;
    assert forall d :: d in ColumnClues(s, j) ==> d == 0;
    assert forall d :: d in BoxClues(s, i, j) ==> d == 0;
    AscendingUnique(UnfilledInRow(s, i), Digits());
    AscendingUnique(UnfilledInColumn(s, j), Digits());
    AscendingUnique(UnfilledInBox(s, i, j), Digits());
  }

  /** The fill can write the same digit twice into one row: on a grid without
      clues, with every draw selecting the first index, every cell receives 1,
      whatever the traversal order. */
  lemma FillRepeatsInRow(rowOrder: seq<int>, colOrders: seq<seq<int>>)
    requires IsOrdering(rowOrder, 0, 9)
    requires |colOrders| == 9 && forall k :: 0 <= k < 9 ==> IsOrdering(colOrders[k], 0, 9)
    ensures var t := FillUnknownCellsRandomly(NewSudoku(BlankGrid()), rowOrder, colOrders, FirstIndex(), FirstIndex());
            forall i, j :: 0 <= i < 9 && 0 <= j < 9 ==> CellValue(t, i, j) == 1
  {
    forall i, j | 0 <= i < 9 && 0 <= j < 9
      ensures CellValue(FillUnknownCellsRandomly(NewSudoku(BlankGrid()), rowOrder, colOrders, FirstIndex(), FirstIndex()), i, j) == 1
    {
      BlankFillCell(rowOrder, colOrders, i, j);
    }
  }

  lemma BlankFillCell(rowOrder: seq<int>, colOrders: seq<seq<int>>, i: int, j: int)
    requires IsOrdering(rowOrder, 0, 9)
    requires |colOrders| == 9 && forall k :: 0 <= k < 9 ==> IsOrdering(colOrders[k], 0, 9)
    requires InGrid(i, j)
    ensures CellValue(FillUnknownCellsRandomly(NewSudoku(BlankGrid()), rowOrder, colOrders, FirstIndex(), FirstIndex()), i, j) == 1
  {
    var s := NewSudoku(BlankGrid());
    assert !IsClue(s, i, j);
    BlankFillValue(i, j);
  }
}
