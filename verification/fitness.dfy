/** `getFitnessScore` of `Sudoku.java`: every cell is compared with the other
    cells of its column (`calculateVerticalFitness`) and of its 3x3 box
    (`calculateSquareFitness`); each equal value costs 10000 when the other
    cell is a clue and 1 otherwise. Rows are never compared, and a column pair
    inside one box is charged by both scans. */
module Fitness {
  import opened Lists
  import opened SudokuChromosome

  /** The cost of a match against cell (r, c): `isAssumption(r, c) ? 10000 : 1`. */
  function Penalty(s: Sudoku, r: int, c: int): (p: int)
    requires WellFormed(s) && InGrid(r, c)
    ensures p == 10000 || p == 1
    ensures p == 10000 <==> IsClue(s, r, c)
  {
    if IsClue(s, r, c) then 10000 else 1
  }

  /** `calculateVerticalFitness(r, c)` from iteration `k` on. */
  function ColumnScan(s: Sudoku, r: int, c: int, k: int): (score: int)
    requires WellFormed(s) && InGrid(r, c) && 0 <= k <= 9
    ensures -(9 - k) * 10000 <= score <= 0
    decreases 9 - k
  {
    if k == 9 then 0
    else
      var hit := if k != r && CellValue(s, r, c) == CellValue(s, k, c) then -Penalty(s, k, c) else 0;
      hit + ColumnScan(s, r, c, k + 1)
  }

  /** The column scan from `k` on charges nothing exactly when no later cell
      of the column other than (r, c) itself matches. */
  lemma {:induction false} ColumnScanZeroIff(s: Sudoku, r: int, c: int, k: int)
    requires WellFormed(s) && InGrid(r, c) && 0 <= k <= 9
    ensures ColumnScan(s, r, c, k) == 0 <==>
              forall k' :: k <= k' < 9 && k' != r ==> CellValue(s, r, c) != CellValue(s, k', c)
    decreases 9 - k
  {
    if k < 9 {
      ColumnScanZeroIff(s, r, c, k + 1);
      if k != r && CellValue(s, r, c) == CellValue(s, k, c) {
        assert ColumnScan(s, r, c, k) < 0;
      } else {
        assert ColumnScan(s, r, c, k) == ColumnScan(s, r, c, k + 1);
      }
    }
  }

  /** `calculateSquareFitness(r, c)` from iteration `k` on. */
  function BoxScan(s: Sudoku, r: int, c: int, k: int): (score: int)
    requires WellFormed(s) && InGrid(r, c) && 0 <= k <= 9
    ensures -(9 - k) * 10000 <= score <= 0
    decreases 9 - k
  {
    if k == 9 then 0
    else
      var r2, c2 := BoxRow(r, k), BoxCol(c, k);
      var hit := if (r2, c2) != (r, c) && CellValue(s, r, c) == CellValue(s, r2, c2) then -Penalty(s, r2, c2) else 0;
      hit + BoxScan(s, r, c, k + 1)
  }

  /** The box scan from `k` on charges nothing exactly when no later cell of
      the enumeration other than (r, c) itself matches. */
  lemma {:induction false} BoxScanZeroIff(s: Sudoku, r: int, c: int, k: int)
    requires WellFormed(s) && InGrid(r, c) && 0 <= k <= 9
    ensures BoxScan(s, r, c, k) == 0 <==>
              forall k' :: k <= k' < 9 && (BoxRow(r, k'), BoxCol(c, k')) != (r, c) ==>
                CellValue(s, r, c) != CellValue(s, BoxRow(r, k'), BoxCol(c, k'))
    decreases 9 - k
  {
    if k < 9 {
      BoxScanZeroIff(s, r, c, k + 1);
      var r2, c2 := BoxRow(r, k), BoxCol(c, k);
      if (r2, c2) != (r, c) && CellValue(s, r, c) == CellValue(s, r2, c2) {
        assert BoxScan(s, r, c, k) < 0;
      } else {
        assert BoxScan(s, r, c, k) == BoxScan(s, r, c, k + 1);
      }
    }
  }

  /** No other cell of column c has the effective value of (r, c). */
  predicate ColumnClear(s: Sudoku, r: int, c: int)
    requires WellFormed(s) && InGrid(r, c)
  {
    forall r2 :: 0 <= r2 < 9 && r2 != r ==> CellValue(s, r, c) != CellValue(s, r2, c)
  }

  /** No other cell of the box of (r, c) has its effective value. */
  predicate BoxClear(s: Sudoku, r: int, c: int)
    requires WellFormed(s) && InGrid(r, c)
  {
    forall r2, c2 :: 0 <= r2 < 9 && 0 <= c2 < 9 && SameBox(r, c, r2, c2) && (r2, c2) != (r, c) ==>
      CellValue(s, r, c) != CellValue(s, r2, c2)
  }

  /** `calculateVerticalFitness(r, c)`. */
  function VerticalFitness(s: Sudoku, r: int, c: int): (score: int)
    requires WellFormed(s) && InGrid(r, c)
    ensures -90000 <= score <= 0
  {
    ColumnScan(s, r, c, 0)
  }

  /** `calculateSquareFitness(r, c)`. */
  function SquareFitness(s: Sudoku, r: int, c: int): (score: int)
    requires WellFormed(s) && InGrid(r, c)
    ensures -90000 <= score <= 0
  {
    BoxScan(s, r, c, 0)
  }

  /** The two scans of the body of `getFitnessScore`'s inner loop. */
  function CellFitness(s: Sudoku, r: int, c: int): (score: int)
    requires WellFormed(s) && InGrid(r, c)
    ensures -180000 <= score <= 0
  {
    VerticalFitness(s, r, c) + SquareFitness(s, r, c)
  }

  /** A cell scores zero exactly when nothing else in its column or box matches it. */
  lemma CellFitnessZeroIff(s: Sudoku, r: int, c: int)
    requires WellFormed(s) && InGrid(r, c)
    ensures CellFitness(s, r, c) == 0 <==> ColumnClear(s, r, c) && BoxClear(s, r, c)
  {
    ColumnScanZeroIff(s, r, c, 0);
    BoxScanZeroIff(s, r, c, 0);
    BoxEnumeration(r, c);
    assert VerticalFitness(s, r, c) == 0 <==> ColumnClear(s, r, c);
    assert SquareFitness(s, r, c) == 0 <==> BoxClear(s, r, c);
  }

  /** The sum of a list of scores. */
  function Sum(xs: seq<int>): int {
    if |xs| == 0 then 0 else xs[0] + Sum(xs[1..])
  }

  /** Scores between `lo` and 0 add up to a score between `|xs| * lo` and 0. */
  lemma {:induction false} SumBounds(xs: seq<int>, lo: int)
    requires forall i :: 0 <= i < |xs| ==> lo <= xs[i] <= 0
    ensures |xs| * lo <= Sum(xs) <= 0
  {
    if |xs| > 0 {
      SumBounds(xs[1..], lo);
      assert |xs| * lo == (|xs| - 1) * lo + lo;
    }
  }

  /** Non-positive scores add up to zero exactly when each is zero. */
  lemma {:induction false} SumZeroIff(xs: seq<int>)
    requires forall i :: 0 <= i < |xs| ==> xs[i] <= 0
    ensures Sum(xs) <= 0
    ensures Sum(xs) == 0 <==> forall i :: 0 <= i < |xs| ==> xs[i] == 0
  {
    if |xs| > 0 {
      SumZeroIff(xs[1..]);
      assert forall i :: 1 <= i < |xs| ==> xs[i] == xs[1..][i - 1];
    }
  }

  /** A non-positive list with a nonzero sum has a nonzero entry. */
  lemma NonzeroEntry(xs: seq<int>) returns (i: int)
    requires forall k :: 0 <= k < |xs| ==> xs[k] <= 0
    requires Sum(xs) != 0
    ensures 0 <= i < |xs| && xs[i] != 0
  {
    SumZeroIff(xs);
    i :| 0 <= i < |xs| && xs[i] != 0;
  }

  /** The scores of the cells of row `i`, in the order of the inner loop of `getFitnessScore`. */
  function CellScores(s: Sudoku, i: int): (scores: seq<int>)
    requires WellFormed(s) && 0 <= i < 9
    ensures |scores| == 9
    ensures forall j :: 0 <= j < 9 ==> scores[j] == CellFitness(s, i, j)
  {
    seq(9, j requires 0 <= j < 9 => CellFitness(s, i, j))
  }

  /** The inner loop of `getFitnessScore`: the row's cells added up. */
  function RowScore(s: Sudoku, i: int): (score: int)
    requires WellFormed(s) && 0 <= i < 9
    ensures -1620000 <= score <= 0
  {
    SumBounds(CellScores(s, i), -180000);
    Sum(CellScores(s, i))
  }

  /** The row scores in the order of the outer loop of `getFitnessScore`. */
  function RowScores(s: Sudoku): (scores: seq<int>)
    requires WellFormed(s)
    ensures |scores| == 9
    ensures forall i :: 0 <= i < 9 ==> scores[i] == RowScore(s, i)
  {
    seq(9, i requires 0 <= i < 9 => RowScore(s, i))
  }

  /** `getFitnessScore`. Its least value, -14580000, fits a Java `int`, so the
      source's accumulation never overflows. */
  function Score(s: Sudoku): (score: int)
    requires WellFormed(s)
    ensures -14580000 <= score <= 0
  {
    SumBounds(RowScores(s), -1620000);
    Sum(RowScores(s))
  }

  /** A zero score leaves every cell at zero. */
  lemma ZeroScoreCells(s: Sudoku)
    requires WellFormed(s) && Score(s) == 0
    ensures forall r, c :: InGrid(r, c) ==> CellFitness(s, r, c) == 0
  {
    forall r, c | InGrid(r, c)
      ensures CellFitness(s, r, c) == 0
    {
      ZeroScoreCell(s, r, c);
    }
  }

  lemma ZeroScoreCell(s: Sudoku, r: int, c: int)
    requires WellFormed(s) && Score(s) == 0 && InGrid(r, c)
    ensures CellFitness(s, r, c) == 0
  {
    RowScoreZero(s, r);
    assert Sum(CellScores(s, r)) == 0;
    SumZeroIff(CellScores(s, r));
    assert CellScores(s, r)[c] == 0;
  }

  lemma RowScoreZero(s: Sudoku, r: int)
    requires WellFormed(s) && Score(s) == 0 && 0 <= r < 9
    ensures RowScore(s, r) == 0
  {
    SumZeroIff(RowScores(s));
    assert RowScores(s)[r] == 0;
  }

  /** A negative score is charged by some cell. */
  lemma NegativeScoreCell(s: Sudoku) returns (r: int, c: int)
    requires WellFormed(s) && Score(s) != 0
    ensures InGrid(r, c) && CellFitness(s, r, c) != 0
  {
    r := NonzeroEntry(RowScores(s));
    c := NonzeroEntry(CellScores(s, r));
  }

  /** Distinct cells sharing a column or a 3x3 box hold different effective
      values. Nothing is said about rows. */
  predicate ColumnsAndBoxesDistinct(s: Sudoku)
    requires WellFormed(s)
  {
    forall r1, c1, r2, c2 ::
      && 0 <= r1 < 9 && 0 <= c1 < 9 && 0 <= r2 < 9 && 0 <= c2 < 9
      && (r1, c1) != (r2, c2)
      && (c1 == c2 || SameBox(r1, c1, r2, c2))
      ==> CellValue(s, r1, c1) != CellValue(s, r2, c2)
  }

  /** No cell has a match in its column or its box. */
  predicate AllCellsClear(s: Sudoku)
    requires WellFormed(s)
  {
    forall r, c :: 0 <= r < 9 && 0 <= c < 9 ==> ColumnClear(s, r, c) && BoxClear(s, r, c)
  }

  /** The score is zero exactly when no column and no box holds a repeated value. */
  lemma ScoreZeroIff(s: Sudoku)
    requires WellFormed(s)
    ensures Score(s) == 0 <==> ColumnsAndBoxesDistinct(s)
  {
    ScoreZeroClear(s);
    if AllCellsClear(s) {
      ClearCellsDistinct(s);
    }
    if ColumnsAndBoxesDistinct(s) {
      DistinctClearCells(s);
    }
  }

  lemma ScoreZeroClear(s: Sudoku)
    requires WellFormed(s)
    ensures Score(s) == 0 <==> AllCellsClear(s)
  {
    if Score(s) == 0 {
      ZeroScoreClear(s);
    } else {
      var r, c := NegativeScoreWitness(s);
    }
  }

  lemma ZeroScoreClear(s: Sudoku)
    requires WellFormed(s) && Score(s) == 0
    ensures AllCellsClear(s)
  {
    ZeroScoreCells(s);
    forall r, c | InGrid(r, c)
      ensures ColumnClear(s, r, c) && BoxClear(s, r, c)
    {
      CellFitnessZeroIff(s, r, c);
    }
  }

  /** A cell that a negative score charges. */
  lemma NegativeScoreWitness(s: Sudoku) returns (r: int, c: int)
    requires WellFormed(s) && Score(s) != 0
    ensures InGrid(r, c) && !(ColumnClear(s, r, c) && BoxClear(s, r, c))
  {
    r, c := NegativeScoreCell(s);
    CellFitnessZeroIff(s, r, c);
  }

  lemma ClearCellsDistinct(s: Sudoku)
    requires WellFormed(s) && AllCellsClear(s)
    ensures ColumnsAndBoxesDistinct(s)
  {
    forall r1, c1, r2, c2 | InGrid(r1, c1) && InGrid(r2, c2) && (r1, c1) != (r2, c2) && (c1 == c2 || SameBox(r1, c1, r2, c2))
      ensures CellValue(s, r1, c1) != CellValue(s, r2, c2)
    {
      assert ColumnClear(s, r1, c1) && BoxClear(s, r1, c1);
    }
  }

  lemma DistinctClearCells(s: Sudoku)
    requires WellFormed(s) && ColumnsAndBoxesDistinct(s)
    ensures AllCellsClear(s)
  {
  }

  // ---------------------------------------------------------------------------
  // How one matching pair is charged
  // ---------------------------------------------------------------------------

  /** A column scan whose only match is row `r2` charges the penalty of
      (r2, c) once, if the scan has not yet passed `r2`. */
  lemma {:induction false} ColumnScanSingle(s: Sudoku, r: int, c: int, k: int, r2: int)
    requires WellFormed(s) && InGrid(r, c) && 0 <= k <= 9 && 0 <= r2 < 9 && r2 != r
    requires forall k' :: 0 <= k' < 9 && k' != r ==> (CellValue(s, r, c) == CellValue(s, k', c) <==> k' == r2)
    ensures ColumnScan(s, r, c, k) == if k <= r2 then -Penalty(s, r2, c) else 0
    decreases 9 - k
  {
    if k < 9 {
      ColumnScanSingle(s, r, c, k + 1, r2);
    }
  }

  /** A box scan whose only match is the `k2`-th cell of the box charges that
      cell's penalty once, if the scan has not yet passed it. */
  lemma {:induction false} BoxScanSingle(s: Sudoku, r: int, c: int, k: int, k2: int)
    requires WellFormed(s) && InGrid(r, c) && 0 <= k <= 9 && 0 <= k2 < 9
    requires (BoxRow(r, k2), BoxCol(c, k2)) != (r, c)
    requires forall k' :: 0 <= k' < 9 && (BoxRow(r, k'), BoxCol(c, k')) != (r, c) ==>
               (CellValue(s, r, c) == CellValue(s, BoxRow(r, k'), BoxCol(c, k')) <==> k' == k2)
    ensures BoxScan(s, r, c, k) == if k <= k2 then -Penalty(s, BoxRow(r, k2), BoxCol(c, k2)) else 0
    decreases 9 - k
  {
    if k < 9 {
      BoxScanSingle(s, r, c, k + 1, k2);
    }
  }

  /** Among the other cells of its column and box, (r1, c) matches (r2, c) and nothing else. */
  predicate OnlyMatch(s: Sudoku, r1: int, r2: int, c: int)
    requires WellFormed(s) && InGrid(r1, c) && InGrid(r2, c)
  {
    && r1 != r2
    && CellValue(s, r1, c) == CellValue(s, r2, c)
    && forall r, c2 ::
         && 0 <= r < 9 && 0 <= c2 < 9
         && (r, c2) != (r1, c) && (r, c2) != (r2, c)
         && (c2 == c || SameBox(r1, c, r, c2))
         ==> CellValue(s, r, c2) != CellValue(s, r1, c)
  }

  /** A cell whose only match is a column neighbour in its own box is charged
      twice for it, once by each scan; each charge is the other cell's penalty. */
  lemma PairInBoxChargedTwice(s: Sudoku, r1: int, r2: int, c: int)
    requires WellFormed(s) && InGrid(r1, c) && InGrid(r2, c) && OnlyMatch(s, r1, r2, c)
    requires r1 / 3 == r2 / 3
    ensures CellFitness(s, r1, c) == -2 * Penalty(s, r2, c)
  {
    ColumnScanSingle(s, r1, c, 0, r2);
    var k2 := (r2 % 3) * 3 + c % 3;
    BoxOnlyMatch(s, r1, r2, c, k2);
    BoxScanSingle(s, r1, c, 0, k2);
  }

  /** A cell whose only match is a column neighbour in another box is charged
      once for it, by the column scan. */
  lemma PairAcrossBoxesChargedOnce(s: Sudoku, r1: int, r2: int, c: int)
    requires WellFormed(s) && InGrid(r1, c) && InGrid(r2, c) && OnlyMatch(s, r1, r2, c)
    requires r1 / 3 != r2 / 3
    ensures CellFitness(s, r1, c) == -Penalty(s, r2, c)
  {
    ColumnScanSingle(s, r1, c, 0, r2);
    BoxEnumeration(r1, c);
    BoxScanZeroIff(s, r1, c, 0);
  }

  lemma BoxOnlyMatch(s: Sudoku, r1: int, r2: int, c: int, k2: int)
    requires WellFormed(s) && InGrid(r1, c) && InGrid(r2, c) && OnlyMatch(s, r1, r2, c)
    requires r1 / 3 == r2 / 3 && k2 == (r2 % 3) * 3 + c % 3
    ensures 0 <= k2 < 9 && BoxRow(r1, k2) == r2 && BoxCol(c, k2) == c
    ensures forall k' :: 0 <= k' < 9 && (BoxRow(r1, k'), BoxCol(c, k')) != (r1, c) ==>
              (CellValue(s, r1, c) == CellValue(s, BoxRow(r1, k'), BoxCol(c, k')) <==> k' == k2)
  {
    BoxEnumeration(r1, c);
    forall k' | 0 <= k' < 9 && (BoxRow(r1, k'), BoxCol(c, k')) != (r1, c)
      ensures CellValue(s, r1, c) == CellValue(s, BoxRow(r1, k'), BoxCol(c, k')) <==> k' == k2
    {
      if BoxRow(r1, k') == r2 && BoxCol(c, k') == c {
        assert k' == k' / 3 * 3 + k' % 3;
      }
    }
  }

  // ---------------------------------------------------------------------------
  // Distinctness column by column and box by box
  // ---------------------------------------------------------------------------

  /** The effective values of column `c`, top to bottom. */
  function ColumnValues(s: Sudoku, c: int): (vs: seq<int>)
    requires WellFormed(s) && 0 <= c < 9
    ensures |vs| == 9 && forall r :: 0 <= r < 9 ==> vs[r] == CellValue(s, r, c)
  {
    [CellValue(s, 0, c), CellValue(s, 1, c), CellValue(s, 2, c),
     CellValue(s, 3, c), CellValue(s, 4, c), CellValue(s, 5, c),
     CellValue(s, 6, c), CellValue(s, 7, c), CellValue(s, 8, c)]
  }

  /** The effective values of box `b` (boxes numbered row-major), row by row. */
  function BoxValues(s: Sudoku, b: int): (vs: seq<int>)
    requires WellFormed(s) && 0 <= b < 9
    ensures |vs| == 9
  {
    var r, c := b / 3 * 3, b % 3 * 3;
    [CellValue(s, r, c), CellValue(s, r, c + 1), CellValue(s, r, c + 2),
     CellValue(s, r + 1, c), CellValue(s, r + 1, c + 1), CellValue(s, r + 1, c + 2),
     CellValue(s, r + 2, c), CellValue(s, r + 2, c + 1), CellValue(s, r + 2, c + 2)]
  }

  /** Columns and boxes checked one list at a time. */
  lemma ColumnsAndBoxesByLists(s: Sudoku)
    requires WellFormed(s)
    requires forall c :: 0 <= c < 9 ==> Distinct(ColumnValues(s, c))
    requires forall b :: 0 <= b < 9 ==> Distinct(BoxValues(s, b))
    ensures ColumnsAndBoxesDistinct(s)
  {
    forall r1, c1, r2, c2 | InGrid(r1, c1) && InGrid(r2, c2) && (r1, c1) != (r2, c2) && (c1 == c2 || SameBox(r1, c1, r2, c2))
      ensures CellValue(s, r1, c1) != CellValue(s, r2, c2)
    {
      if c1 == c2 {
        var vs := ColumnValues(s, c1);
        assert vs[r1] != vs[r2];
      } else {
        BoxCellsDiffer(s, r1, c1, r2, c2);
      }
    }
  }

  /** Entry `3 * i + j` of box `b` is the cell `i` rows and `j` columns from its corner. */
  lemma BoxValueAt(s: Sudoku, b: int, i: int, j: int)
    requires WellFormed(s) && 0 <= b < 9 && 0 <= i < 3 && 0 <= j < 3
    ensures BoxValues(s, b)[3 * i + j] == CellValue(s, b / 3 * 3 + i, b % 3 * 3 + j)
  {
  }

  lemma BoxCellsDiffer(s: Sudoku, r1: int, c1: int, r2: int, c2: int)
    requires WellFormed(s) && InGrid(r1, c1) && InGrid(r2, c2) && (r1, c1) != (r2, c2) && SameBox(r1, c1, r2, c2)
    requires forall b :: 0 <= b < 9 ==> Distinct(BoxValues(s, b))
    ensures CellValue(s, r1, c1) != CellValue(s, r2, c2)
  {
    var b := BoxOf(r1, c1, r2, c2);
    BoxValueAt(s, b, r1 % 3, c1 % 3);
    BoxValueAt(s, b, r2 % 3, c2 % 3);
    var vs := BoxValues(s, b);
    var k1, k2 := 3 * (r1 % 3) + c1 % 3, 3 * (r2 % 3) + c2 % 3;
    assert Distinct(vs);
    if k1 < k2 {
      assert vs[k1] != vs[k2];
    } else {
      assert vs[k2] != vs[k1];
    }
  }

  /** The number of the box two cells of the same box share, and their distinct offsets in it. */
  lemma BoxOf(r1: int, c1: int, r2: int, c2: int) returns (b: int)
    requires InGrid(r1, c1) && InGrid(r2, c2) && (r1, c1) != (r2, c2) && SameBox(r1, c1, r2, c2)
    ensures 0 <= b < 9
    ensures b / 3 * 3 + r1 % 3 == r1 && b % 3 * 3 + c1 % 3 == c1
    ensures b / 3 * 3 + r2 % 3 == r2 && b % 3 * 3 + c2 % 3 == c2
    ensures 3 * (r1 % 3) + c1 % 3 != 3 * (r2 % 3) + c2 % 3
  {
    b := r1 / 3 * 3 + c1 / 3;
    assert b / 3 == r1 / 3 && b % 3 == c1 / 3;
  }
}
