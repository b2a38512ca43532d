# Sudoku by genetic search: a Dafny model

This project models the core of a Java program that solves a Sudoku puzzle with a
genetic algorithm. It covers two classes.

- **The chromosome** (`Sudoku.java`). A chromosome has a clue grid and a grid of
  candidate values for the unknown cells. A cell is a clue when its clue value is a
  digit 1..9.
  - It computes the legal-digit lists of a row, a column and a 3x3 box.
  - It fills every unknown cell with a digit legal for its row, and also for its
    column and box when such a digit exists.
  - It scores itself by comparing every cell with the other cells of its column and
    of its box. A match costs 10000 when the other cell is a clue and 1 otherwise.
    The goal score is 0.
  - It crosses over with another chromosome by taking rows from each.
  - It mutates by reshuffling the unknown digits of one row.
- **The search engine** (`GeneticSearch.java`), with the chromosome type fixed to
  `Sudoku`. Each generation:
  1. takes a random sample of the population;
  2. appends crossover children;
  3. mutates a sample of the sample;
  4. purges members scoring below the average;

  and it stops when the best member reaches the goal score.

The model is written in pure functions over immutable values.

- A chromosome is the datatype `Sudoku(clues, cands)`, with two 9x9 `seq<seq<int>>`
  grids.
- A population is a `seq<Sudoku>`. A reference into the population, such as a
  selected element or a parent, is a position.
- Every use of `Math.random()` becomes a parameter:
  - A `Draw` maps each size `n` to an index below `n`.
  - A shuffle outcome is an ordering (`IsOrdering`).
  - Each `probabilityToHappen` coin is a boolean.
- The engine's unbounded loops get finite lists of draws, and the model proves the
  partial correctness of `run`. This applies to `run` itself and to the inner
  `while (parent2 != parent1)` loop.

Modules:

| Module | Models |
|---|---|
| `Lists` | The `java.util` list operations the chromosome relies on. |
| `Draws` | The draw, shuffle and Java integer-division idioms. |
| `SudokuChromosome` | `Sudoku.java` apart from the fitness. |
| `Fitness` | `getFitnessScore`. |
| `Witnesses` | Concrete grids that settle what the fitness and the fill guarantee. |
| `GeneticSearch` | `GeneticSearch.java`. |
| `PurgeOverflow` | A concrete population showing the `int` overflow in `purge()`. |

Where the design intent and the code differ, the model follows the code:

- **Rows are never scored.** `getFitnessScore` compares a cell only with its column
  and its box. So a score of 0 means "no column and no box repeats a value"
  (`Fitness.ScoreZeroIff`), not "the grid is solved". `Witnesses.RowRepeatScoresZero`
  is a grid with a digit repeated in a row that still scores 0. The search can
  therefore return a member that repeats a digit in a row.
- **Same-box column pairs are charged twice.** Two equal cells of one column that are
  in the same box are charged by both scans (`Fitness.PairInBoxChargedTwice`).
- **The fill can repeat digits in a row.** It checks each cell against the clue grid
  only, never against the values it has already written. So the result does not
  depend on the traversal order (`SudokuChromosome.FillOrderIrrelevant`), and it can
  write the same digit into one row many times (`Witnesses.FillRepeatsInRow`).
- **Crossover children are copies.** The parent loop `while (parent2 != parent1)`
  draws until the second parent IS the first one. Every child is therefore a
  chromosome crossed with itself, which equals it (`SudokuChromosome.CrossoverWithItself`).
  `GeneticSearch.CrossoverStep` states this: every appended child equals a selected
  member.
- **The purge's average can wrap around.** `purge()` sums the scores in an `int`.
  The modelled `run` purges as written (`GeneticSearch.PurgeAsWritten`), so its
  contracts hold for the program as it is. `GeneticSearch.Purge` is the corrected
  purge with an exact sum; see "## Findings".

## Model

Source paths are under `src/com/github/mohsenpakzad/`.

| member | source | states |
|---|---|---|
| SudokuChromosome.NewSudoku | src/com/github/mohsenpakzad/Sudoku.java:12-15 | The new chromosome keeps the given clue grid and has an all-zero candidate grid. |
| SudokuChromosome.ValidCellNumberIsDigit | src/com/github/mohsenpakzad/Sudoku.java:215-217 | `isValidCellNumber` holds exactly for the digits of `rangeClosed(1, 9)`. |
| SudokuChromosome.ClueIsDigit | src/com/github/mohsenpakzad/Sudoku.java:211-213 | `isAssumption` holds exactly when the clue value is a digit. It depends on the clue grid only. |
| SudokuChromosome.CellValueReads | src/com/github/mohsenpakzad/Sudoku.java:207-209 | `getCellValue` of a clue cell is its clue digit. Two chromosomes with the same clues agree on a cell exactly when it is a clue or their candidates there agree. |
| SudokuChromosome.BoxEnumeration | src/com/github/mohsenpakzad/Sudoku.java:95-103 | The enumeration `k / 3 + r / 3 * 3`, `k % 3 + c / 3 * 3` stays inside the box of (r, c) and reaches every cell of it. |
| SudokuChromosome.UnfilledInRow | src/com/github/mohsenpakzad/Sudoku.java:61-73 | The list is ascending and holds exactly the digits 1..9 that no clue of the row holds. |
| SudokuChromosome.UnfilledInColumn | src/com/github/mohsenpakzad/Sudoku.java:75-87 | The list is ascending and holds exactly the digits 1..9 that no clue of the column holds. |
| SudokuChromosome.UnfilledInBox | src/com/github/mohsenpakzad/Sudoku.java:89-105 | The list is ascending and holds exactly the digits 1..9 that no clue of the 3x3 box holds. |
| SudokuChromosome.UnfilledOnlyReadsClues | src/com/github/mohsenpakzad/Sudoku.java:61-105 | Two chromosomes with the same clue grid get the same three lists, whatever their candidates. |
| SudokuChromosome.UnfilledRowNonEmpty | src/com/github/mohsenpakzad/Sudoku.java:61-73 | A row with a non-clue cell has a non-empty list, so the fallback `get` at line 56 has an index. |
| SudokuChromosome.DeepCopy | src/com/github/mohsenpakzad/Sudoku.java:26-34 | As a value, the copy equals the original in both grids. |
| SudokuChromosome.Crossover | src/com/github/mohsenpakzad/Sudoku.java:151-165 | The child keeps the clue grid of `this`. It takes candidate rows `p[0..4)` from `this` and rows `p[4..9)` from `another`. |
| SudokuChromosome.CrossoverWithItself | src/com/github/mohsenpakzad/Sudoku.java:151-165 | Crossing a chromosome with itself gives that chromosome back, whatever the shuffle. |
| SudokuChromosome.RowClues | src/com/github/mohsenpakzad/Sudoku.java:178-179 | The filtered stream holds exactly the row's clue values. There is one element per clue cell. |
| SudokuChromosome.Place | src/com/github/mohsenpakzad/Sudoku.java:183-187 | The poll loop leaves clue cells unchanged. |
| SudokuChromosome.PlaceFromQueue | src/com/github/mohsenpakzad/Sudoku.java:183-187 | Every non-clue cell receives an element of the consumed queue prefix. |
| SudokuChromosome.PlaceDistinct | src/com/github/mohsenpakzad/Sudoku.java:183-187 | A duplicate-free queue puts pairwise different values into the non-clue cells. |
| SudokuChromosome.PlaceMultiset | src/com/github/mohsenpakzad/Sudoku.java:183-187 | The row's effective values are its clues plus the consumed queue prefix, as multisets. |
| SudokuChromosome.Remaining | src/com/github/mohsenpakzad/Sudoku.java:174-180 | Before the shuffle, the linked list is ascending and holds exactly the digits no clue of the row holds. |
| SudokuChromosome.RemainingIsUnfilledInRow | src/com/github/mohsenpakzad/Sudoku.java:174-180 | The list `shuffleRow` builds equals `findUnfilledNumberInRow` of the same row. |
| SudokuChromosome.ShuffleRowQueue | src/com/github/mohsenpakzad/Sudoku.java:174-185 | The shuffled queue is a permutation of the remaining digits. It is never shorter than the number of non-clue cells, so `poll()` never yields null. With distinct clues it has exactly that length and completes the clues to 1..9. |
| SudokuChromosome.ShuffledRow | src/com/github/mohsenpakzad/Sudoku.java:172-188 | In the new row, clue cells are kept and non-clue cells hold pairwise different legal digits. With distinct clues the row is a permutation of 1..9. |
| SudokuChromosome.ShuffleRow | src/com/github/mohsenpakzad/Sudoku.java:172-188 | Only row r changes, and clue cells keep their values. Non-clue cells get pairwise different digits from the row's legal list. With distinct clues the row's effective values are a permutation of 1..9. |
| SudokuChromosome.Mutate | src/com/github/mohsenpakzad/Sudoku.java:167-170 | Only the drawn row `(int) (Math.random() * 9)` can change, and none of its clue cells. Its non-clue cells get pairwise different digits legal for the row. When the row's clues are pairwise distinct, its effective values are a permutation of 1..9. |
| SudokuChromosome.MutateReshuffles | src/com/github/mohsenpakzad/Sudoku.java:167-188 | A mutation keeps the clue grid and every clue cell. Any row it changes gets pairwise different digits legal for the row in its non-clue cells, and with distinct clues the row's effective values are 1..9. |
| SudokuChromosome.ReshuffledTrans | src/com/github/mohsenpakzad/Sudoku.java:167-188 | Such reshuffles compose, so a member mutated any number of times keeps these guarantees relative to the member it started as. |
| SudokuChromosome.FillValue | src/com/github/mohsenpakzad/Sudoku.java:45-56 | The written value is a legal digit of the row. If a digit legal for the row, column and box exists, the value is legal for all three. |
| SudokuChromosome.FillChoice | src/com/github/mohsenpakzad/Sudoku.java:49-56 | Given the row, column and box lists, the choice is always a digit of the row list. If some digit occurs in all three lists, the choice is such a digit. |
| SudokuChromosome.FillValueCases | src/com/github/mohsenpakzad/Sudoku.java:49-55 | `findAny` returns a common legal digit whenever one exists. Otherwise it returns the sentinel 0, which sends the fill to the row fallback. |
| SudokuChromosome.FillValueOnlyReadsClues | src/com/github/mohsenpakzad/Sudoku.java:47-56 | The choice at a cell depends only on the clue grid and the draws. |
| SudokuChromosome.FillValueReadsClues | src/com/github/mohsenpakzad/Sudoku.java:47-56 | The single-cell form of `FillValueOnlyReadsClues`. |
| SudokuChromosome.FillCell | src/com/github/mohsenpakzad/Sudoku.java:45-56 | A clue cell is skipped. A non-clue cell gets the fill's choice, and no other cell changes. |
| SudokuChromosome.FillRow | src/com/github/mohsenpakzad/Sudoku.java:41-57 | After the inner loop over the visited columns of row i, exactly those non-clue cells hold the choice made on the original chromosome. |
| SudokuChromosome.FillRowStep | src/com/github/mohsenpakzad/Sudoku.java:43-57 | One cell followed by the rest of the row gives the whole row's result. |
| SudokuChromosome.FillRows | src/com/github/mohsenpakzad/Sudoku.java:38-58 | After the outer loop over the visited rows, their non-clue cells hold the choice made on the original chromosome. Every other cell is unchanged. |
| SudokuChromosome.FillRowsStep | src/com/github/mohsenpakzad/Sudoku.java:40-58 | One row followed by the remaining rows gives the result for all of them. |
| SudokuChromosome.FillUnknownCellsRandomly | src/com/github/mohsenpakzad/Sudoku.java:36-59 | The fill never writes clue cells or the clue grid. Every non-clue cell gets a legal digit of its row, which is also legal for its column and box when such a digit exists. |
| SudokuChromosome.FillOrderIrrelevant | src/com/github/mohsenpakzad/Sudoku.java:36-59 | The row and column shuffles do not affect the result. |
| Fitness.Penalty | src/com/github/mohsenpakzad/Sudoku.java:143-144 | A match costs 10000 exactly when the other cell is a clue, and 1 otherwise. |
| Fitness.ColumnScan | src/com/github/mohsenpakzad/Sudoku.java:137-148 | The vertical scan from iteration k on is between -(9-k)*10000 and 0. |
| Fitness.ColumnScanZeroIff | src/com/github/mohsenpakzad/Sudoku.java:137-148 | The vertical scan charges nothing exactly when no other row of the column holds the same effective value. |
| Fitness.ColumnScanSingle | src/com/github/mohsenpakzad/Sudoku.java:137-148 | With a single matching row r2, the scan charges r2's penalty exactly once. |
| Fitness.VerticalFitness | src/com/github/mohsenpakzad/Sudoku.java:137-148 | `calculateVerticalFitness` is between -90000 and 0. |
| Fitness.BoxScan | src/com/github/mohsenpakzad/Sudoku.java:121-135 | The square scan from iteration k on is between -(9-k)*10000 and 0. |
| Fitness.BoxScanZeroIff | src/com/github/mohsenpakzad/Sudoku.java:121-135 | The square scan charges nothing exactly when no other cell of the box holds the same effective value. |
| Fitness.BoxScanSingle | src/com/github/mohsenpakzad/Sudoku.java:121-135 | With a single matching box cell, the scan charges that cell's penalty exactly once. |
| Fitness.SquareFitness | src/com/github/mohsenpakzad/Sudoku.java:121-135 | `calculateSquareFitness` is between -90000 and 0. |
| Fitness.CellFitness | src/com/github/mohsenpakzad/Sudoku.java:114-115 | One cell's contribution is between -180000 and 0. |
| Fitness.CellFitnessZeroIff | src/com/github/mohsenpakzad/Sudoku.java:114-115 | A cell contributes 0 exactly when no other cell of its column or box matches it. |
| Fitness.RowScore | src/com/github/mohsenpakzad/Sudoku.java:113-116 | One row's contribution is between -1620000 and 0. |
| Fitness.Score | src/com/github/mohsenpakzad/Sudoku.java:107-119 | The fitness is between -14580000 and 0, so the `int` accumulator never overflows. |
| Fitness.ZeroScoreCells | src/com/github/mohsenpakzad/Sudoku.java:107-119 | A zero score means every cell contributes 0. |
| Fitness.ZeroScoreCell | src/com/github/mohsenpakzad/Sudoku.java:107-119 | A zero score means the given cell contributes 0. |
| Fitness.RowScoreZero | src/com/github/mohsenpakzad/Sudoku.java:107-119 | A zero score means every row contributes 0. |
| Fitness.NegativeScoreCell | src/com/github/mohsenpakzad/Sudoku.java:107-119 | A negative score is charged by some cell. |
| Fitness.ScoreZeroIff | src/com/github/mohsenpakzad/Sudoku.java:107-148 | The score is 0 exactly when no column and no 3x3 box has two cells with the same effective value. Rows play no part. |
| Fitness.ScoreZeroClear | src/com/github/mohsenpakzad/Sudoku.java:107-148 | The score is 0 exactly when no cell has a match in its column or box. |
| Fitness.ZeroScoreClear | src/com/github/mohsenpakzad/Sudoku.java:107-148 | A zero score means no cell has a match in its column or box. |
| Fitness.NegativeScoreWitness | src/com/github/mohsenpakzad/Sudoku.java:107-148 | A negative score names a cell with a match in its column or box. |
| Fitness.ClearCellsDistinct | src/com/github/mohsenpakzad/Sudoku.java:121-148 | Cells free of matches give duplicate-free columns and boxes. |
| Fitness.DistinctClearCells | src/com/github/mohsenpakzad/Sudoku.java:121-148 | Duplicate-free columns and boxes leave every cell free of matches. |
| Fitness.PairInBoxChargedTwice | src/com/github/mohsenpakzad/Sudoku.java:121-148 | A match with a column neighbour in the same box costs twice the neighbour's penalty. |
| Fitness.PairAcrossBoxesChargedOnce | src/com/github/mohsenpakzad/Sudoku.java:121-148 | A match with a column neighbour in another box costs the neighbour's penalty once. |
| Witnesses.SolvedGridScoresZero | src/com/github/mohsenpakzad/Main.java:14-27 | The solved table of the main program, given as clues, scores the goal 0. |
| Witnesses.RowRepeatScoresZero | src/com/github/mohsenpakzad/Sudoku.java:107-148 | A chromosome with 6 twice in row 0 still scores 0: rows are never compared. |
| Witnesses.FillRepeatsInRow | src/com/github/mohsenpakzad/Sudoku.java:36-59 | On a grid without clues, with every draw selecting the first index, the fill writes 1 into every cell whatever the traversal order. Rows are not kept duplicate-free. |
| Lists.Digits | src/com/github/mohsenpakzad/Sudoku.java:63-65 | `rangeClosed(1, 9)` is ascending and holds exactly the digits 1..9. |
| Lists.RemoveFirst | src/com/github/mohsenpakzad/Sudoku.java:69 | `remove((Integer) v)` drops one occurrence of v when present, and changes nothing otherwise. |
| Lists.RemoveFirstAscending | src/com/github/mohsenpakzad/Sudoku.java:69 | On an ascending list, the removal keeps the order and deletes exactly v. |
| Lists.StrikeAscending | src/com/github/mohsenpakzad/Sudoku.java:67-71 | A chain of removals from an ascending list leaves exactly the values not removed, still ascending. |
| Lists.StrikeLength | src/com/github/mohsenpakzad/Sudoku.java:178-180 | Only digit values can shorten a list of digits. |
| Lists.StrikeExact | src/com/github/mohsenpakzad/Sudoku.java:178-180 | Removing distinct values that all occur takes each one out exactly once. |
| Lists.Keep | src/com/github/mohsenpakzad/Sudoku.java:49-51 | `filter(other::contains)` keeps exactly the elements found in both lists. |
| Lists.KeepSubsequence | src/com/github/mohsenpakzad/Sudoku.java:49-51 | Filtering keeps an ascending or duplicate-free list so. |
| Draws.Pick | src/com/github/mohsenpakzad/Sudoku.java:169 | `(int) (Math.random() * n)` is an index below n, or 0 when n is 0. |
| Draws.JavaDiv | src/com/github/mohsenpakzad/GeneticSearch.java:89-91 | Java `int` division truncates toward zero, bracketing the dividend on the correct side for either sign. |
| Draws.AverageBelowMax | src/com/github/mohsenpakzad/GeneticSearch.java:89-91 | The truncated average of n values is at most their maximum. |
| GeneticSearch.Fitnesses | src/com/github/mohsenpakzad/GeneticSearch.java:89-90 | `mapToInt(getFitnessScore)` gives every member's score in population order. |
| GeneticSearch.Sample | src/com/github/mohsenpakzad/GeneticSearch.java:59-69 | A list of at most one element gives the empty sample. Otherwise the sample is shorter than the list, and every element comes from the list. |
| GeneticSearch.SampleReaches | src/com/github/mohsenpakzad/GeneticSearch.java:59-69 | Every list of fewer elements, drawn with replacement, is a possible sample. |
| GeneticSearch.Selection | src/com/github/mohsenpakzad/GeneticSearch.java:55-57 | The selection is a sample of population positions: empty for a population of at most one, and shorter than the population otherwise. |
| GeneticSearch.BestIndex | src/com/github/mohsenpakzad/GeneticSearch.java:49-53 | The position holds a maximum score, and every earlier position scores strictly less. On a tie the earliest member wins. |
| GeneticSearch.BestIndexIsFirstMaximum | src/com/github/mohsenpakzad/GeneticSearch.java:49-53 | The first maximum is unique. |
| GeneticSearch.FindBest | src/com/github/mohsenpakzad/GeneticSearch.java:49-53 | The result is a member that no member outscores. |
| GeneticSearch.SecondParent | src/com/github/mohsenpakzad/GeneticSearch.java:76-77 | The loop as written stops at the first draw that picks the same element as `parent1`. The result is None when none of the given draws does. |
| GeneticSearch.FirstParent | src/com/github/mohsenpakzad/GeneticSearch.java:75 | `parent1` is one of the selected positions. |
| GeneticSearch.Couples | src/com/github/mohsenpakzad/GeneticSearch.java:74-79 | There is one couple per round, and each couple pairs `parent1` with itself. |
| GeneticSearch.Children | src/com/github/mohsenpakzad/GeneticSearch.java:78 | Each child is `parent1.crossover(parent2)` with its round's row shuffle. |
| GeneticSearch.RoundsOf | src/com/github/mohsenpakzad/GeneticSearch.java:74 | The loop runs at most as many rounds as the selection has elements. |
| GeneticSearch.CrossoverStep | src/com/github/mohsenpakzad/GeneticSearch.java:71-81 | An empty selection leaves the population as it was. Otherwise the old members stay in front, at most one child per selected element is appended, and every child equals a selected member. |
| GeneticSearch.CrossoverKeepsClues | src/com/github/mohsenpakzad/GeneticSearch.java:71-81 | A clue grid shared by the whole population stays shared after the crossover. |
| GeneticSearch.MutateMember | src/com/github/mohsenpakzad/GeneticSearch.java:85 | The member at the position becomes `Mutate` of itself. Every other position is unchanged, and every member is a reshuffle of its old self. |
| GeneticSearch.MutateTargets | src/com/github/mohsenpakzad/GeneticSearch.java:85 | `forEach(mutate)` changes only the targeted positions and keeps the size. Every member is a reshuffle of its old self: the same clues and clue cells, and each changed row holds distinct legal digits. |
| GeneticSearch.MutationStep | src/com/github/mohsenpakzad/GeneticSearch.java:84-86 | Only selected members can change. The size is kept, and every member is a reshuffle of its old self: the same clues and clue cells, and each changed row holds distinct legal digits. |
| GeneticSearch.Wrap32 | src/com/github/mohsenpakzad/GeneticSearch.java:89-91 | The `int` sum lies in the 32-bit range and is congruent to the exact sum modulo 2^32. It is the exact sum whenever that fits. |
| GeneticSearch.Survivors | src/com/github/mohsenpakzad/GeneticSearch.java:93-97 | The surviving positions are ascending, and at most `limit` are missing. Every missing position scored below the average. Every position at or above the average survives. |
| GeneticSearch.SurvivorsRemoveFirst | src/com/github/mohsenpakzad/GeneticSearch.java:93-96 | `limit` takes the FIRST below-average members: when a position is removed, every earlier below-average position is removed too. |
| GeneticSearch.SurvivorsNoBudget | src/com/github/mohsenpakzad/GeneticSearch.java:95 | A limit of 0 removes nothing. |
| GeneticSearch.SurvivorsAllBelowRemoved | src/com/github/mohsenpakzad/GeneticSearch.java:93-97 | When fewer than `limit` members are removed, all below-average members are. |
| GeneticSearch.Select | src/com/github/mohsenpakzad/GeneticSearch.java:93-97 | `removeAll` leaves the surviving members in their original order. |
| GeneticSearch.PurgeAgainst | src/com/github/mohsenpakzad/GeneticSearch.java:93-97 | At most `limit` members are removed. |
| GeneticSearch.PurgeLimit | src/com/github/mohsenpakzad/GeneticSearch.java:95 | `(long) (Math.random() * (size / 2))` is below half the size. It is 0 for fewer than two members. |
| GeneticSearch.PurgeAsWritten | src/com/github/mohsenpakzad/GeneticSearch.java:88-97 | `purge()` as written, with the wrapping `int` sum: a non-empty, well-formed population, and at most `limit` members leave. |
| GeneticSearch.Purge | src/com/github/mohsenpakzad/GeneticSearch.java:88-97 | The corrected purge, which sums exactly: a non-empty, well-formed population, and at most `limit` members leave. |
| GeneticSearch.SurvivorAtLeastAverage | src/com/github/mohsenpakzad/GeneticSearch.java:93-97 | A member scoring at least the average survives. |
| GeneticSearch.SurvivorFromPopulation | src/com/github/mohsenpakzad/GeneticSearch.java:93-97 | Every survivor was a member before the purge. |
| GeneticSearch.PurgeKeepsBest | src/com/github/mohsenpakzad/GeneticSearch.java:88-97 | The corrected purge (exact sum) never lowers the best score of the population. `purge()` as written can (`PurgeOverflow.PurgeAsWrittenDropsSolution`). |
| GeneticSearch.BestOfSubPopulation | src/com/github/mohsenpakzad/GeneticSearch.java:49-53 | A sub-population that keeps a best member has the same best score. |
| GeneticSearch.BestAtLeastAverage | src/com/github/mohsenpakzad/GeneticSearch.java:89-91 | The maximum score is at least the truncated average. |
| GeneticSearch.PurgeAsWrittenWithoutOverflow | src/com/github/mohsenpakzad/GeneticSearch.java:89-91 | When the exact sum is at least `Integer.MIN_VALUE`, the purge as written equals the purge. |
| GeneticSearch.PurgeAgainstSubsequence | src/com/github/mohsenpakzad/GeneticSearch.java:93-97 | Against any average, the survivors are an ordered subsequence of the population, every removed member scored below that average, and at most `limit` members leave. |
| GeneticSearch.PurgeAsWrittenSubsequence | src/com/github/mohsenpakzad/GeneticSearch.java:88-97 | For `purge()` as written: the survivors are an ordered subsequence, every removed member scored below the average of the wrapped `int` sum, at most `limit` members leave, fewer than half the population, and none when there are fewer than two. |
| GeneticSearch.PurgeAgainstNoLimit | src/com/github/mohsenpakzad/GeneticSearch.java:95-96 | `limit(0)` removes nobody, whatever the average. |
| GeneticSearch.PurgeSubsequence | src/com/github/mohsenpakzad/GeneticSearch.java:88-97 | For the corrected purge (exact sum): the survivors are an ordered subsequence, every removed member scored below the exact average, at most `limit` members leave, fewer than half the population, and none when there are fewer than two. |
| GeneticSearch.PurgeSmall | src/com/github/mohsenpakzad/GeneticSearch.java:95 | Both `purge()` as written and the corrected purge leave a one-member population alone. |
| GeneticSearch.PurgeKeepsClues | src/com/github/mohsenpakzad/GeneticSearch.java:88-97 | For the corrected purge (exact sum): a clue grid shared by the whole population stays shared. |
| GeneticSearch.PurgeAgainstKeepsClues | src/com/github/mohsenpakzad/GeneticSearch.java:93-97 | Against any average, a clue grid shared by the whole population stays shared. |
| GeneticSearch.PurgeAsWrittenKeepsClues | src/com/github/mohsenpakzad/GeneticSearch.java:88-97 | For `purge()` as written: a clue grid shared by the whole population stays shared. |
| GeneticSearch.CrossoverPhase | src/com/github/mohsenpakzad/GeneticSearch.java:37 | The crossover phase keeps the first member and a shared clue grid, and never shrinks the population. |
| GeneticSearch.MutationPhase | src/com/github/mohsenpakzad/GeneticSearch.java:39 | The mutation phase keeps the size and every member's clue grid. Every member is a reshuffle of its old self. |
| GeneticSearch.PurgePhase | src/com/github/mohsenpakzad/GeneticSearch.java:41 | The purge phase runs `purge()` as written, with the wrapping sum. It keeps the population non-empty and a shared clue grid. |
| GeneticSearch.Step | src/com/github/mohsenpakzad/GeneticSearch.java:35-41 | One generation, purging as written, leaves a non-empty, well-formed population that keeps the clue grid the population shared. |
| GeneticSearch.StepKeepsFirstClues | src/com/github/mohsenpakzad/GeneticSearch.java:35-41 | The first member after a generation has the clue grid the population shared. |
| GeneticSearch.RunFrom | src/com/github/mohsenpakzad/GeneticSearch.java:27-44 | The loop never lowers `globalMaxScore`. It stops only at a member scoring exactly the goal, and that member keeps the shared clue grid. |
| GeneticSearch.Advance | src/com/github/mohsenpakzad/GeneticSearch.java:29-43 | The same guarantees as `RunFrom`, for one pass of the loop body followed by the loop. |
| GeneticSearch.Run | src/com/github/mohsenpakzad/GeneticSearch.java:20-47 | With `purge()` as written: if `run` returns, it returns a member scoring exactly the goal with the puzzle's clue grid. The tracked best never falls below the initial best. |
| PurgeOverflow.FivesColumnScan | src/com/github/mohsenpakzad/Sudoku.java:137-148 | Each cell of `Fives()` pays 10000 for every other row of its column. |
| PurgeOverflow.BoxSelf | src/com/github/mohsenpakzad/Sudoku.java:125-128 | The square scan skips exactly the iteration `(r % 3) * 3 + c % 3`. |
| PurgeOverflow.FivesBoxScan | src/com/github/mohsenpakzad/Sudoku.java:121-135 | Each cell of `Fives()` pays 10000 for every other cell of its box. |
| PurgeOverflow.FivesCell | src/com/github/mohsenpakzad/Sudoku.java:112-116 | Each cell of `Fives()` contributes -160000. |
| PurgeOverflow.FivesScore | src/com/github/mohsenpakzad/Sudoku.java:107-148 | `Fives()` scores -12960000. |
| PurgeOverflow.OverflowingAverage | src/com/github/mohsenpakzad/GeneticSearch.java:89-91 | The exact sum is -2151360000, below `Integer.MIN_VALUE`. The `int` sum wraps to 2143607296, and the average is 12835971. |
| PurgeOverflow.PurgeAsWrittenKeepsRest | src/com/github/mohsenpakzad/GeneticSearch.java:88-97 | On such a population, with any nonzero limit, the purge as written keeps only copies of the low-scoring member: the wrapped average lies above the goal score. |
| PurgeOverflow.PurgeAsWrittenDropsFirst | src/com/github/mohsenpakzad/GeneticSearch.java:88-97 | On such a population, any nonzero limit makes the purge as written remove the only member scoring 0. The best score falls to -12960000. |
| PurgeOverflow.PurgeAsWrittenDropsSolution | src/com/github/mohsenpakzad/GeneticSearch.java:88-97 | The purge as written can lower the best score from 0 to -12960000. |
| PurgeOverflow.PurgePhaseDropsSolution | src/com/github/mohsenpakzad/GeneticSearch.java:41 | In the modelled `run`, a generation that purges with a nonzero limit removes the solution from that population. |

## Left out

- **Main program:**
  - `Main.java` builds a population of 100 filled copies of the puzzle and calls `run(0)`. Only its solved table is used here.
  - `toString`, `getUnknownTable` and all console output are left out, because they compute nothing the search depends on.
- **Randomness:**
  - Every `Math.random()` use is a parameter. `(int) (Math.random() * n)` is any index below `n`, and the model does not constrain it to `floor(r * n)` for one real `r`.
  - `new Random().ints` is a list of such draws.
  - `Collections.shuffle` is any ordering.
  - `findAny` is any element of the filtered list.
  - `probabilityToHappen(rate)` is a boolean coin. The rates 50, 10 and 30 and the probabilities are not modelled.
- **Non-termination:**
  - The inner `while (parent2 != parent1)` loop and the generation loop of `run` are given finite lists of draws. Exhausting them yields `None` or `Unfinished`.
  - A run that never finds the goal is covered only as far as those draws reach. The model proves partial correctness.
- **References:**
  - A reference into the population is a position. `Chromosome::mutate` on a selected element becomes an update at that position.
  - Population members are pairwise distinct objects in the source: each comes from `deepCopy` or `crossover`. So `removeAll` of a set of references removes exactly those positions.
- **`Chromosome.java`:** the interface is replaced by the fixed type `Sudoku`. The engine is generic in the source and specialised here.
- **Java exceptions become preconditions.**
  - `findBestScoreElement` on an empty population throws, so the model requires a non-empty population.
  - `poll()` returning null would throw on unboxing. `SudokuChromosome.ShuffleRowQueue` proves this never happens.
- **Grid shape:** grids are assumed 9x9 (`IsGrid`), as `new int[9][9]` and the main program's tables guarantee.
- **Wrap-around:** the only `int` wrap-around modelled is the fitness sum of `purge()` (`GeneticSearch.Wrap32`), which `GeneticSearch.PurgeAsWritten` and therefore the modelled `run` use. No other wrap-around is modelled, because `Fitness.Score` proves every fitness lies in [-14580000, 0].
- SudokuChromosome.DeepCopy: the copy shares no array with the original. This is a property of references and is not expressible for values, so the contract only states value equality.
- GeneticSearch.RunFrom: the loop of `run` is stated for the draws given. It says nothing about whether the search eventually succeeds.

## Findings

| source | as written | input that shows it | evidently intended | confidence | as-written member | corrected member |
|---|---|---|---|---|---|---|
| src/com/github/mohsenpakzad/GeneticSearch.java:89-91 | The fitness average is `IntStream.sum() / size` in 32-bit `int`. The sum wraps around once the scores add up below `Integer.MIN_VALUE`. The average then turns positive, every member counts as below average, and the purge can remove the best member. | The solved table (score 0) followed by 166 chromosomes whose every cell is the clue 5 (score -12960000 each). The sum is -2151360000 and wraps to 2143607296, so the average is 12835971. With a nonzero `limit` the solved member is removed first. | The average of the scores. Members at or above it, including every best member, are never purged. | not executed. Proved on a constructed population whose members do not share one clue grid; `purge()` itself asks nothing of its members. Members built from the main program's puzzle score far higher, so the wrap needs a population many times larger than the initial 100. | GeneticSearch.PurgeAsWritten, PurgeOverflow.PurgeAsWrittenDropsSolution, PurgeOverflow.PurgePhaseDropsSolution | GeneticSearch.Purge, GeneticSearch.PurgeKeepsBest |
