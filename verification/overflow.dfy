/** A population on which `purge()` as written removes the only solution:
    the Java `int` sum of the fitness scores wraps around to a large positive
    number, the average becomes positive, and every member, the solved grid
    first, counts as below average. */
module PurgeOverflow {
  import opened Draws
  import opened SudokuChromosome
  import opened Fitness
  import opened Witnesses
  import opened GeneticSearch

  /** A clue grid holding 5 in every cell. */
  function FivesGrid(): (g: seq<seq<int>>)
    ensures IsGrid(g)
    ensures forall i, j :: 0 <= i < 9 && 0 <= j < 9 ==> g[i][j] == 5
  {
    seq(9, _ => seq(9, _ => 5))
  }

  /** The chromosome whose every cell is the clue 5: each cell matches all
      eight other cells of its column and of its box, all of them clues. */
  function Fives(): (s: Sudoku)
    ensures WellFormed(s)
    ensures forall r, c :: InGrid(r, c) ==> IsClue(s, r, c) && CellValue(s, r, c) == 5
  {
    NewSudoku(FivesGrid())
  }

  /** The column scan of a cell of `Fives()` from `k` on charges 10000 for
      every remaining row but the cell's own. */
  lemma {:induction false} FivesColumnScan(r: int, c: int, k: int)
    requires InGrid(r, c) && 0 <= k <= 9
    ensures ColumnScan(Fives(), r, c, k) == -10000 * (9 - k - (if k <= r then 1 else 0))
    decreases 9 - k
  {
    if k < 9 {
      FivesColumnScan(r, c, k + 1);
    }
  }

  /** The `k`-th cell of the box enumeration is (r, c) itself exactly for
      `k == (r % 3) * 3 + c % 3`. */
  lemma BoxSelf(r: int, c: int, k: int)
    requires InGrid(r, c) && 0 <= k < 9
    ensures (BoxRow(r, k), BoxCol(c, k)) == (r, c) <==> k == (r % 3) * 3 + c % 3
  {
    assert BoxRow(r, k) == r <==> k / 3 == r % 3;
    assert BoxCol(c, k) == c <==> k % 3 == c % 3;
  }

  /** The box scan of a cell of `Fives()` from `k` on charges 10000 for
      every remaining cell of the enumeration but the cell itself. */
  lemma {:induction false} FivesBoxScan(r: int, c: int, k: int)
    requires InGrid(r, c) && 0 <= k <= 9
    ensures BoxScan(Fives(), r, c, k) == -10000 * (9 - k - (if k <= (r % 3) * 3 + c % 3 then 1 else 0))
    decreases 9 - k
  {
    if k < 9 {
      BoxSelf(r, c, k);
      BoxEnumeration(r, c);
      FivesBoxScan(r, c, k + 1);
    }
  }

  lemma FivesCell(r: int, c: int)
    requires InGrid(r, c)
    ensures CellFitness(Fives(), r, c) == -160000
  {
    FivesColumnScan(r, c, 0);
    FivesBoxScan(r, c, 0);
  }

  /** A list of equal values sums to their count times the value. */
  lemma {:induction false} SumConstant(xs: seq<int>, v: int)
    requires forall i :: 0 <= i < |xs| ==> xs[i] == v
    ensures Sum(xs) == |xs| * v
  {
    if |xs| > 0 {
      SumConstant(xs[1..], v);
    }
  }

  /** `Fives()` scores -12960000: 81 cells, each charged 16 times 10000. */
  lemma FivesScore()
    ensures Score(Fives()) == -12960000
  {
    var s := Fives();
    forall r | 0 <= r < 9
      ensures RowScore(s, r) == -1440000
    {
      forall c | 0 <= c < 9
        ensures CellScores(s, r)[c] == -160000
      {
        FivesCell(r, c);
      }
      SumConstant(CellScores(s, r), -160000);
    }
    SumConstant(RowScores(s), -1440000);
  }

  /** The solved grid followed by 166 copies of `Fives()`. */
  function Overflowing(): (pop: Population)
    ensures |pop| == 167 && ValidPopulation(pop)
    ensures pop[0] == NewSudoku(SolvedGrid())
    ensures forall i :: 1 <= i < 167 ==> pop[i] == Fives()
  {
    [NewSudoku(SolvedGrid())] + seq(166, _ => Fives())
  }

  lemma OverflowingScores()
    ensures Score(Overflowing()[0]) == 0
    ensures forall i :: 1 <= i < 167 ==> Score(Overflowing()[i]) == -12960000
  {
    SolvedGridScoresZero();
    FivesScore();
    forall i | 1 <= i < 167
      ensures Score(Overflowing()[i]) == -12960000
    {
      assert Overflowing()[i] == Fives();
    }
  }

  /** One goal-scoring member followed by 166 members scoring -12960000: the
      exact fitness sum is below `Integer.MIN_VALUE`, the Java `int` sum wraps
      to a positive value and so does the truncated average. */
  lemma OverflowingAverage(fs: seq<int>)
    requires |fs| == 167 && fs[0] == 0
    requires forall i :: 1 <= i < 167 ==> fs[i] == -12960000
    ensures Sum(fs) == -2151360000 < IntMin
    ensures Wrap32(Sum(fs)) == 2143607296
    ensures JavaDiv(Wrap32(Sum(fs)), 167) == 12835971
  {
    SumConstant(fs[1..], -12960000);
  }

  /** On such a population, a purge with the Java `int` sum that is allowed
      to remove a member keeps only copies of the second member. */
  lemma PurgeAsWrittenKeepsRest(pop: Population, limitDraw: Draw)
    requires ValidPopulation(pop) && |pop| == 167 && Score(pop[0]) == 0
    requires forall i :: 1 <= i < 167 ==> pop[i] == pop[1]
    requires Score(pop[1]) == -12960000
    requires ValidDraw(limitDraw) && limitDraw(83) > 0
    ensures var kept := PurgeAsWritten(pop, limitDraw);
            forall k :: 0 <= k < |kept| ==> kept[k] == pop[1]
  {
    var fs := Fitnesses(pop);
    OverflowingAverage(fs);
    var avg := JavaDiv(Wrap32(Sum(fs)), |pop|);
    var limit := PurgeLimit(|pop|, limitDraw);
    assert fs[0] < avg && limit > 0;
    var ks := Survivors(fs, avg, limit, 0);
    assert ks == Survivors(fs, avg, limit - 1, 1);
    assert PurgeAsWritten(pop, limitDraw) == Select(pop, ks);
  }

  /** On such a population, a purge with the Java `int` sum that is allowed
      to remove at least one member removes the first one, the only member
      scoring the goal. */
  lemma PurgeAsWrittenDropsFirst(pop: Population, limitDraw: Draw)
    requires ValidPopulation(pop) && |pop| == 167 && Score(pop[0]) == 0
    requires forall i :: 1 <= i < 167 ==> pop[i] == pop[1]
    requires Score(pop[1]) == -12960000
    requires ValidDraw(limitDraw) && limitDraw(83) > 0
    ensures Score(FindBest(pop)) == 0
    ensures Score(FindBest(PurgeAsWritten(pop, limitDraw))) == -12960000
  {
    PurgeAsWrittenKeepsRest(pop, limitDraw);
    var kept := PurgeAsWritten(pop, limitDraw);
    var best := FindBest(kept);
    var j :| 0 <= j < |kept| && kept[j] == best;
    assert best == pop[1];
    var top := FindBest(pop);
    assert Score(pop[0]) <= Score(top);
  }

  /** The solved grid of `Main.java` followed by 166 copies of `Fives()`:
      the purge as written can remove the solution from the population. */
  lemma PurgeAsWrittenDropsSolution(limitDraw: Draw)
    requires ValidDraw(limitDraw) && limitDraw(83) > 0
    ensures Score(FindBest(Overflowing())) == 0
    ensures Score(FindBest(PurgeAsWritten(Overflowing(), limitDraw))) == -12960000
  {
    OverflowingScores();
    PurgeAsWrittenDropsFirst(Overflowing(), limitDraw);
  }

  /** The purge phase of a generation of `run` is the purge as written: on
      the same population, a generation whose purge coin comes up with a
      nonzero limit loses the solution. */
  lemma PurgePhaseDropsSolution(g: Generation)
    requires ValidGeneration(g) && g.purge && g.purgeLimit(83) > 0
    ensures Score(FindBest(Overflowing())) == 0
    ensures Score(FindBest(PurgePhase(Overflowing(), g))) == -12960000
  {
    PurgeAsWrittenDropsSolution(g.purgeLimit);
  }
}
