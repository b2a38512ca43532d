/** The Sudoku chromosome (`Sudoku.java`): a clue grid (`assumptionTable`) and
    a candidate grid (`unknownTable`), the legal-digit lists derived from the
    clues, row-wise crossover, single-row shuffle mutation, the greedy random
    initial fill and the deep copy. Chromosomes are values; every random choice
    of the source is a parameter. Fitness scoring is in module `Fitness`. */
module SudokuChromosome {
  import opened Lists
  import opened Draws

  /** One candidate solution. */
  datatype Sudoku = Sudoku(clues: seq<seq<int>>, cands: seq<seq<int>>)

  /** A 9x9 grid of integers, as `new int[9][9]` allocates. */
  predicate IsGrid(g: seq<seq<int>>) {
    |g| == 9 && forall i :: 0 <= i < 9 ==> |g[i]| == 9
  }

  predicate WellFormed(s: Sudoku) {
    IsGrid(s.clues) && IsGrid(s.cands)
  }

  /** `new Sudoku(assumptionTable)`: the given clues and a candidate grid of zeros. */
  function NewSudoku(clues: seq<seq<int>>): (s: Sudoku)
    requires IsGrid(clues)
    ensures WellFormed(s) && s.clues == clues
    ensures forall i, j :: 0 <= i < 9 && 0 <= j < 9 ==> s.cands[i][j] == 0
  {
    Sudoku(clues, seq(9, _ => seq(9, _ => 0)))
  }

  predicate InGrid(r: int, c: int) {
    0 <= r < 9 && 0 <= c < 9
  }

  /** `isValidCellNumber`: the values a clue may hold; anything else marks an unknown cell. */
  predicate IsValidCellNumber(v: int) {
    1 <= v <= 9
  }

  /** `isAssumption`: the cell is a clue exactly when its clue value is a digit. */
  predicate IsClue(s: Sudoku, r: int, c: int)
    requires WellFormed(s) && InGrid(r, c)
  {
    IsValidCellNumber(s.clues[r][c])
  }

  /** `getCellValue`: the clue of a clue cell, the candidate of any other cell. */
  function CellValue(s: Sudoku, r: int, c: int): int
    requires WellFormed(s) && InGrid(r, c)
  {
    if IsClue(s, r, c) then s.clues[r][c] else s.cands[r][c]
  }

  /** The valid cell numbers are exactly the digits of `IntStream.rangeClosed(1, 9)`. */
  lemma ValidCellNumberIsDigit(v: int)
    ensures IsValidCellNumber(v) <==> v in Digits()
  {
  }

  /** A cell is a clue exactly when its clue value is one of the nine digits,
      whatever its candidate holds. */
  lemma ClueIsDigit(s: Sudoku, t: Sudoku, r: int, c: int)
    requires WellFormed(s) && WellFormed(t) && InGrid(r, c) && s.clues == t.clues
    ensures IsClue(s, r, c) <==> s.clues[r][c] in Digits()
    ensures IsClue(s, r, c) <==> IsClue(t, r, c)
  {
    ValidCellNumberIsDigit(s.clues[r][c]);
  }

  /** `getCellValue` of a clue cell is its digit, and it reads the candidate
      grid at non-clue cells only: two chromosomes with the same clues agree
      on a cell exactly when it is a clue or their candidates there agree. */
  lemma CellValueReads(s: Sudoku, t: Sudoku, r: int, c: int)
    requires WellFormed(s) && WellFormed(t) && InGrid(r, c) && s.clues == t.clues
    ensures IsClue(s, r, c) ==> CellValue(s, r, c) in Digits() && CellValue(s, r, c) == s.clues[r][c]
    ensures CellValue(s, r, c) == CellValue(t, r, c) <==> IsClue(s, r, c) || s.cands[r][c] == t.cands[r][c]
  {
    ValidCellNumberIsDigit(s.clues[r][c]);
  }

  /** The row and column of the `k`-th cell of the 3x3 box holding (r, c), in
      the source's enumeration `k / 3 + r / 3 * 3`, `k % 3 + c / 3 * 3`. */
  function BoxRow(r: int, k: int): (row: int)
    requires 0 <= r < 9 && 0 <= k < 9
    ensures 0 <= row < 9 && row / 3 == r / 3
  {
    k / 3 + r / 3 * 3
  }

  function BoxCol(c: int, k: int): (col: int)
    requires 0 <= c < 9 && 0 <= k < 9
    ensures 0 <= col < 9 && col / 3 == c / 3
  {
    k % 3 + c / 3 * 3
  }

  /** Two cells lie in the same 3x3 box. */
  predicate SameBox(r1: int, c1: int, r2: int, c2: int) {
    r1 / 3 == r2 / 3 && c1 / 3 == c2 / 3
  }

  /** The enumeration of a box visits exactly the cells of that box. */
  lemma BoxEnumeration(r: int, c: int)
    requires InGrid(r, c)
    ensures forall k :: 0 <= k < 9 ==> InGrid(BoxRow(r, k), BoxCol(c, k)) && SameBox(r, c, BoxRow(r, k), BoxCol(c, k))
    ensures forall r2, c2 :: InGrid(r2, c2) && SameBox(r, c, r2, c2) ==>
              var k := (r2 % 3) * 3 + c2 % 3; 0 <= k < 9 && BoxRow(r, k) == r2 && BoxCol(c, k) == c2
  {
    forall r2, c2 | InGrid(r2, c2) && SameBox(r, c, r2, c2)
      ensures var k := (r2 % 3) * 3 + c2 % 3; 0 <= k < 9 && BoxRow(r, k) == r2 && BoxCol(c, k) == c2
    {
      BoxOffset(r2 % 3, c2 % 3);
    }
  }

  /** The offset `a * 3 + b` within a box splits back into its row `a` and column `b`. */
  lemma BoxOffset(a: int, b: int)
    requires 0 <= a < 3 && 0 <= b < 3
    ensures (a * 3 + b) / 3 == a && (a * 3 + b) % 3 == b
  {
  }

  // ---------------------------------------------------------------------------
  // Legal digits of a row, a column and a box (findUnfilledNumberIn...)
  // ---------------------------------------------------------------------------

  type Cell = (int, int)

  predicate AllInGrid(cells: seq<Cell>) {
    forall i :: 0 <= i < |cells| ==> InGrid(cells[i].0, cells[i].1)
  }

  function RowCells(r: int): (cells: seq<Cell>)
    requires 0 <= r < 9
    ensures |cells| == 9 && AllInGrid(cells)
  {
    seq(9, j => (r, j))
  }

  function ColumnCells(c: int): (cells: seq<Cell>)
    requires 0 <= c < 9
    ensures |cells| == 9 && AllInGrid(cells)
  {
    seq(9, j => (j, c))
  }

  function BoxCells(r: int, c: int): (cells: seq<Cell>)
    requires InGrid(r, c)
    ensures |cells| == 9 && AllInGrid(cells)
  {
    seq(9, k requires 0 <= k < 9 => (BoxRow(r, k), BoxCol(c, k)))
  }

  /** The clue value of a cell, whether or not it is a digit. */
  function ClueAt(s: Sudoku, cell: Cell): int
    requires WellFormed(s) && InGrid(cell.0, cell.1)
  {
    s.clues[cell.0][cell.1]
  }

  /** The values the `findUnfilledNumberIn...` loops pass to `remove`, in
      order: the clue value of every visited cell whose EFFECTIVE value is a
      digit. For a non-clue cell holding a digit candidate this is its
      non-digit clue value, whose removal does nothing. */
  function StruckValues(s: Sudoku, cells: seq<Cell>): seq<int>
    requires WellFormed(s) && AllInGrid(cells)
  {
    if |cells| == 0 then []
    else
      (if IsValidCellNumber(CellValue(s, cells[0].0, cells[0].1)) then [ClueAt(s, cells[0])] else [])
      + StruckValues(s, cells[1..])
  }

  /** The clue cells among `cells`. */
  function ClueCount(s: Sudoku, cells: seq<Cell>): nat
    requires WellFormed(s) && AllInGrid(cells)
  {
    if |cells| == 0 then 0
    else (if IsClue(s, cells[0].0, cells[0].1) then 1 else 0) + ClueCount(s, cells[1..])
  }

  /** A digit is struck exactly when it is the clue value of a visited cell;
      and only clue cells contribute digits. */
  lemma {:induction false} StruckValuesDigits(s: Sudoku, cells: seq<Cell>)
    requires WellFormed(s) && AllInGrid(cells)
    ensures forall d :: 1 <= d <= 9 ==>
              (d in StruckValues(s, cells) <==> exists i :: 0 <= i < |cells| && ClueAt(s, cells[i]) == d)
    ensures DigitCount(StruckValues(s, cells)) <= ClueCount(s, cells)
  {
    if |cells| > 0 {
      StruckValuesDigits(s, cells[1..]);
      var head := if IsValidCellNumber(CellValue(s, cells[0].0, cells[0].1)) then [ClueAt(s, cells[0])] else [];
      var rest := StruckValues(s, cells[1..]);
      assert StruckValues(s, cells) == head + rest;
      DigitCountAppend(head, rest);
      forall d | 1 <= d <= 9
        ensures (d in StruckValues(s, cells) <==> exists i :: 0 <= i < |cells| && ClueAt(s, cells[i]) == d)
      {
        if d in StruckValues(s, cells) {
          if d in head {
            assert ClueAt(s, cells[0]) == d;
          } else {
            var i :| 0 <= i < |cells[1..]| && ClueAt(s, cells[1..][i]) == d;
            assert cells[1..][i] == cells[i + 1];
          }
        }
        if exists i :: 0 <= i < |cells| && ClueAt(s, cells[i]) == d {
          var i :| 0 <= i < |cells| && ClueAt(s, cells[i]) == d;
          if i == 0 {
            assert d in head;
          } else {
            assert cells[1..][i - 1] == cells[i];
            assert d in rest;
          }
        }
      }
    }
  }

  lemma {:induction false} DigitCountAppend(xs: seq<int>, ys: seq<int>)
    ensures DigitCount(xs + ys) == DigitCount(xs) + DigitCount(ys)
  {
    if |xs| > 0 {
      assert (xs + ys)[1..] == xs[1..] + ys;
      DigitCountAppend(xs[1..], ys);
    } else {
      assert xs + ys == ys;
    }
  }

  /** A run of cells holding a non-clue cell has at most eight clue cells. */
  lemma {:induction false} ClueCountBelow(s: Sudoku, cells: seq<Cell>, i: int)
    requires WellFormed(s) && AllInGrid(cells)
    requires 0 <= i < |cells| && !IsClue(s, cells[i].0, cells[i].1)
    ensures ClueCount(s, cells) < |cells|
  {
    if i > 0 {
      assert cells[1..][i - 1] == cells[i];
      ClueCountBelow(s, cells[1..], i - 1);
    } else {
      ClueCountAtMost(s, cells[1..]);
    }
  }

  lemma {:induction false} ClueCountAtMost(s: Sudoku, cells: seq<Cell>)
    requires WellFormed(s) && AllInGrid(cells)
    ensures ClueCount(s, cells) <= |cells|
  {
    if |cells| > 0 {
      ClueCountAtMost(s, cells[1..]);
    }
  }

  /** The clue values (digits or not) of `cells`, in order. */
  function CluesOf(s: Sudoku, cells: seq<Cell>): (vs: seq<int>)
    requires WellFormed(s) && AllInGrid(cells)
    ensures |vs| == |cells| && forall i :: 0 <= i < |cells| ==> vs[i] == ClueAt(s, cells[i])
  {
    seq(|cells|, i requires 0 <= i < |cells| => ClueAt(s, cells[i]))
  }

  /** The clue values of column `c`, top to bottom. */
  function ColumnClues(s: Sudoku, c: int): seq<int>
    requires WellFormed(s) && 0 <= c < 9
  {
    seq(9, i requires 0 <= i < 9 => s.clues[i][c])
  }

  /** The clue values of the box holding (r, c), in the source's enumeration. */
  function BoxClues(s: Sudoku, r: int, c: int): seq<int>
    requires WellFormed(s) && InGrid(r, c)
  {
    seq(9, k requires 0 <= k < 9 => s.clues[BoxRow(r, k)][BoxCol(c, k)])
  }

  /** The digits 1..9 minus every value `remove`d while visiting `cells`. */
  function Unfilled(s: Sudoku, cells: seq<Cell>): (u: seq<int>)
    requires WellFormed(s) && AllInGrid(cells)
    ensures Ascending(u)
    ensures forall d :: d in u <==> 1 <= d <= 9 && d !in CluesOf(s, cells)
  {
    StrikeAscending(Digits(), StruckValues(s, cells));
    StruckValuesDigits(s, cells);
    Strike(Digits(), StruckValues(s, cells))
  }

  /** `findUnfilledNumberInRow`: ascending, exactly the digits no clue of row `r` holds. */
  function UnfilledInRow(s: Sudoku, r: int): (u: seq<int>)
    requires WellFormed(s) && 0 <= r < 9
    ensures Ascending(u)
    ensures forall d :: d in u <==> 1 <= d <= 9 && d !in s.clues[r]
  {
    var cells := RowCells(r);
    assert CluesOf(s, cells) == s.clues[r];
    Unfilled(s, cells)
  }

  /** `findUnfilledNumberInColumn`: ascending, exactly the digits no clue of column `c` holds. */
  function UnfilledInColumn(s: Sudoku, c: int): (u: seq<int>)
    requires WellFormed(s) && 0 <= c < 9
    ensures Ascending(u)
    ensures forall d :: d in u <==> 1 <= d <= 9 && d !in ColumnClues(s, c)
  {
    var cells := ColumnCells(c);
    assert CluesOf(s, cells) == ColumnClues(s, c);
    Unfilled(s, cells)
  }

  /** `findUnfilledNumberInCurrentSquare`: ascending, exactly the digits no clue
      of the 3x3 box holding (r, c) holds. */
  function UnfilledInBox(s: Sudoku, r: int, c: int): (u: seq<int>)
    requires WellFormed(s) && InGrid(r, c)
    ensures Ascending(u)
    ensures forall d :: d in u <==> 1 <= d <= 9 && d !in BoxClues(s, r, c)
  {
    var cells := BoxCells(r, c);
    assert CluesOf(s, cells) == BoxClues(s, r, c);
    Unfilled(s, cells)
  }

  /** The legal-digit lists read the clue grid only: candidate values never
      change them. */
  lemma UnfilledOnlyReadsClues(s: Sudoku, t: Sudoku, r: int, c: int)
    requires WellFormed(s) && WellFormed(t) && s.clues == t.clues && InGrid(r, c)
    ensures UnfilledInRow(s, r) == UnfilledInRow(t, r)
    ensures UnfilledInColumn(s, c) == UnfilledInColumn(t, c)
    ensures UnfilledInBox(s, r, c) == UnfilledInBox(t, r, c)
  {
    AscendingUnique(UnfilledInRow(s, r), UnfilledInRow(t, r));
    AscendingUnique(UnfilledInColumn(s, c), UnfilledInColumn(t, c));
    AscendingUnique(UnfilledInBox(s, r, c), UnfilledInBox(t, r, c));
  }

  /** A non-clue cell leaves its row at least one legal digit. */
  lemma UnfilledRowNonEmpty(s: Sudoku, r: int, c: int)
    requires WellFormed(s) && InGrid(r, c) && !IsClue(s, r, c)
    ensures |UnfilledInRow(s, r)| > 0
  {
    var cells := RowCells(r);
    StrikeLength(Digits(), StruckValues(s, cells));
    StruckValuesDigits(s, cells);
    ClueCountBelow(s, cells, c);
  }

  // ---------------------------------------------------------------------------
  // deepCopy
  // ---------------------------------------------------------------------------

  /** `deepCopy`: fresh rows with the same contents. As values the copy equals
      the original; that no row is shared is a property of references. */
  function DeepCopy(s: Sudoku): (copy: Sudoku)
    requires WellFormed(s)
    ensures copy == s
  {
    var clues := seq(9, i requires 0 <= i < 9 => s.clues[i][..|s.clues[i]|]);
    var cands := seq(9, i requires 0 <= i < 9 => s.cands[i][..|s.cands[i]|]);
    assert forall i :: 0 <= i < 9 ==> clues[i] == s.clues[i] && cands[i] == s.cands[i];
    assert clues == s.clues && cands == s.cands;
    Sudoku(clues, cands)
  }

  // ---------------------------------------------------------------------------
  // crossover
  // ---------------------------------------------------------------------------

  /** Copies row `i` of `src` into `rows` for every `i` of `idx`, in order. */
  function CopyRows(rows: seq<seq<int>>, src: seq<seq<int>>, idx: seq<int>): (r: seq<seq<int>>)
    requires |rows| == 9 && |src| == 9
    requires forall k :: 0 <= k < |idx| ==> 0 <= idx[k] < 9
    ensures |r| == 9
    ensures forall i :: 0 <= i < 9 ==> r[i] == if i in idx then src[i] else rows[i]
    decreases |idx|
  {
    if |idx| == 0 then rows
    else CopyRows(rows[idx[0] := src[idx[0]]], src, idx[1..])
  }

  /** `crossover`: with the shuffled row indices `p`, the offspring takes rows
      `p[0..4)` of its candidate grid from `s`, rows `p[4..9)` from `another`,
      and the clue grid of `s`. */
  function Crossover(s: Sudoku, another: Sudoku, p: seq<int>): (child: Sudoku)
    requires WellFormed(s) && WellFormed(another) && IsOrdering(p, 0, 9)
    ensures WellFormed(child) && child.clues == s.clues
    ensures forall k :: 0 <= k < 4 ==> child.cands[p[k]] == s.cands[p[k]]
    ensures forall k :: 4 <= k < 9 ==> child.cands[p[k]] == another.cands[p[k]]
  {
    var half := |p| / 2;
    var unset: seq<seq<int>> := seq(9, _ => []);
    OrderingHalves(p, half);
    var mine := CopyRows(unset, s.cands, p[..half]);
    var child := CopyRows(mine, another.cands, p[half..]);
    Sudoku(s.clues, child)
  }

  /** Splitting an ordering of 0..8 at `half` puts every index in exactly one part. */
  lemma OrderingHalves(p: seq<int>, half: int)
    requires IsOrdering(p, 0, 9) && 0 <= half <= 9
    ensures forall k :: 0 <= k < |p[..half]| ==> 0 <= p[..half][k] < 9
    ensures forall k :: 0 <= k < |p[half..]| ==> 0 <= p[half..][k] < 9
    ensures forall i :: 0 <= i < 9 ==> i in p[..half] || i in p[half..]
    ensures forall k :: 0 <= k < half ==> p[k] in p[..half] && p[k] !in p[half..]
    ensures forall k :: half <= k < 9 ==> p[k] in p[half..]
  {
    forall i | 0 <= i < 9
      ensures i in p[..half] || i in p[half..]
    {
      assert i in p;
      var k :| 0 <= k < 9 && p[k] == i;
      if k < half {
        assert p[..half][k] == i;
      } else {
        assert p[half..][k - half] == i;
      }
    }
    forall k | 0 <= k < half
      ensures p[k] in p[..half] && p[k] !in p[half..]
    {
      assert p[..half][k] == p[k];
      forall m | 0 <= m < 9 - half
        ensures p[half..][m] != p[k]
      {
        assert p[half..][m] == p[half + m];
      }
    }
    forall k | half <= k < 9
      ensures p[k] in p[half..]
    {
      assert p[half..][k - half] == p[k];
    }
  }

  /** A chromosome crossed with itself, whatever the split. */
  lemma CrossoverWithItself(s: Sudoku, p: seq<int>)
    requires WellFormed(s) && IsOrdering(p, 0, 9)
    ensures Crossover(s, s, p) == s
  {
    var child := Crossover(s, s, p);
    forall i | 0 <= i < 9
      ensures child.cands[i] == s.cands[i]
    {
      assert i in p;
    }
  }

  // ---------------------------------------------------------------------------
  // mutate / shuffleRow
  // ---------------------------------------------------------------------------

  /** Non-clue entries of a clue row. */
  function NonClues(cl: seq<int>): (n: nat)
    ensures n <= |cl|
  {
    if |cl| == 0 then 0
    else (if IsValidCellNumber(cl[0]) then 0 else 1) + NonClues(cl[1..])
  }

  /** `Arrays.stream(row).filter(isValidCellNumber)`: the clue values of a row, in order. */
  function RowClues(cl: seq<int>): (vals: seq<int>)
    ensures forall v :: v in vals <==> v in cl && IsValidCellNumber(v)
    ensures DigitCount(vals) == |vals| == |cl| - NonClues(cl)
  {
    if |cl| == 0 then []
    else
      assert cl == [cl[0]] + cl[1..];
      var head := if IsValidCellNumber(cl[0]) then [cl[0]] else [];
      DigitCountAppend(head, RowClues(cl[1..]));
      head + RowClues(cl[1..])
  }

  /** The effective values of a row, given its clue row `cl` and candidate row `cd`. */
  function Effective(cl: seq<int>, cd: seq<int>): seq<int>
    requires |cl| == |cd|
  {
    seq(|cl|, j requires 0 <= j < |cl| => if IsValidCellNumber(cl[j]) then cl[j] else cd[j])
  }

  /** The loop of `shuffleRow` writing `unknownNumbers.poll()` into each
      non-clue cell of a row, left to right. The queue must hold an element for
      every non-clue cell (`poll()` on an empty list yields null, and unboxing it
      throws). */
  function Place(cl: seq<int>, cd: seq<int>, q: seq<int>): (row: seq<int>)
    requires |cl| == |cd| && |q| >= NonClues(cl)
    ensures |row| == |cl|
    ensures forall j :: 0 <= j < |cl| && IsValidCellNumber(cl[j]) ==> row[j] == cd[j]
    decreases |cl|
  {
    if |cl| == 0 then []
    else if IsValidCellNumber(cl[0]) then [cd[0]] + Place(cl[1..], cd[1..], q)
    else [q[0]] + Place(cl[1..], cd[1..], q[1..])
  }

  /** Every non-clue cell receives an element of the consumed prefix of the queue. */
  lemma {:induction false} PlaceFromQueue(cl: seq<int>, cd: seq<int>, q: seq<int>)
    requires |cl| == |cd| && |q| >= NonClues(cl)
    ensures forall j :: 0 <= j < |cl| && !IsValidCellNumber(cl[j]) ==> Place(cl, cd, q)[j] in q[..NonClues(cl)]
    decreases |cl|
  {
    if |cl| > 0 {
      var clue := IsValidCellNumber(cl[0]);
      var rest := if clue then q else q[1..];
      PlaceFromQueue(cl[1..], cd[1..], rest);
      var row := Place(cl, cd, q);
      var n := NonClues(cl);
      var n' := NonClues(cl[1..]);
      forall j | 0 <= j < |cl| && !IsValidCellNumber(cl[j])
        ensures row[j] in q[..n]
      {
        if j > 0 {
          assert cl[1..][j - 1] == cl[j];
          assert row[j] == Place(cl[1..], cd[1..], rest)[j - 1];
          var m :| 0 <= m < n' && rest[..n'][m] == row[j];
          if clue {
            assert q[..n][m] == row[j];
          } else {
            assert q[..n][m + 1] == row[j];
          }
        } else {
          assert q[..n][0] == row[0];
        }
      }
    }
  }

  /** A queue without duplicates puts pairwise different values into the non-clue cells. */
  lemma {:induction false} PlaceDistinct(cl: seq<int>, cd: seq<int>, q: seq<int>)
    requires |cl| == |cd| && |q| >= NonClues(cl) && Distinct(q)
    ensures forall i, j :: 0 <= i < j < |cl| && !IsValidCellNumber(cl[i]) && !IsValidCellNumber(cl[j]) ==>
              Place(cl, cd, q)[i] != Place(cl, cd, q)[j]
    decreases |cl|
  {
    if |cl| > 0 {
      var clue := IsValidCellNumber(cl[0]);
      var rest := if clue then q else q[1..];
      if !clue {
        DistinctTail(q);
      }
      PlaceDistinct(cl[1..], cd[1..], rest);
      PlaceFromQueue(cl[1..], cd[1..], rest);
      var row := Place(cl, cd, q);
      var tail := Place(cl[1..], cd[1..], rest);
      var n' := NonClues(cl[1..]);
      if !clue {
        HeadNotQueued(q, n');
      }
      forall i, j | 0 <= i < j < |cl| && !IsValidCellNumber(cl[i]) && !IsValidCellNumber(cl[j])
        ensures row[i] != row[j]
      {
        PlaceShift(cl, cd, q, j);
        if i > 0 {
          PlaceShift(cl, cd, q, i);
        }
      }
    }
  }

  /** Past the first cell, the row placed from `q` is the rest of the row
      placed from what the first cell leaves of the queue. */
  lemma PlaceShift(cl: seq<int>, cd: seq<int>, q: seq<int>, j: int)
    requires |cl| == |cd| && |q| >= NonClues(cl) && 0 < j < |cl|
    ensures cl[1..][j - 1] == cl[j]
    ensures Place(cl, cd, q)[j] == Place(cl[1..], cd[1..], if IsValidCellNumber(cl[0]) then q else q[1..])[j - 1]
  {
  }

  /** Dropping the head keeps a list duplicate-free. */
  lemma DistinctTail(q: seq<int>)
    requires |q| > 0 && Distinct(q)
    ensures Distinct(q[1..])
  {
    forall i, j | 0 <= i < j < |q| - 1
      ensures q[1..][i] != q[1..][j]
    {
      assert q[1..][i] == q[i + 1] && q[1..][j] == q[j + 1];
    }
  }

  /** In a duplicate-free queue the head is not among the next `n` elements. */
  lemma HeadNotQueued(q: seq<int>, n: nat)
    requires n < |q| && Distinct(q)
    ensures q[0] !in q[1..][..n]
  {
    forall m | 0 <= m < n
      ensures q[1..][..n][m] != q[0]
    {
      assert q[1..][..n][m] == q[m + 1];
    }
  }

  /** The effective row holds the row's clue values and the consumed queue prefix. */
  lemma {:induction false} PlaceMultiset(cl: seq<int>, cd: seq<int>, q: seq<int>)
    requires |cl| == |cd| && |q| >= NonClues(cl)
    ensures multiset(Effective(cl, Place(cl, cd, q))) == multiset(RowClues(cl)) + multiset(q[..NonClues(cl)])
    decreases |cl|
  {
    if |cl| > 0 {
      var rest := if IsValidCellNumber(cl[0]) then q else q[1..];
      PlaceMultiset(cl[1..], cd[1..], rest);
      PlaceHead(cl, cd, q);
      RowCluesHead(cl);
      QueueHead(cl, q);
    }
  }

  /** The first cell of a placed row, and the rest placed from what is left of the queue. */
  lemma PlaceHead(cl: seq<int>, cd: seq<int>, q: seq<int>)
    requires |cl| == |cd| > 0 && |q| >= NonClues(cl)
    ensures var clue := IsValidCellNumber(cl[0]);
            var rest := if clue then q else q[1..];
            multiset(Effective(cl, Place(cl, cd, q))) ==
              multiset{if clue then cl[0] else q[0]} + multiset(Effective(cl[1..], Place(cl[1..], cd[1..], rest)))
  {
    var row := Place(cl, cd, q);
    EffectiveCons(cl, row);
  }

  lemma RowCluesHead(cl: seq<int>)
    requires |cl| > 0
    ensures multiset(RowClues(cl)) ==
              (if IsValidCellNumber(cl[0]) then multiset{cl[0]} else multiset{}) + multiset(RowClues(cl[1..]))
  {
  }

  lemma QueueHead(cl: seq<int>, q: seq<int>)
    requires |cl| > 0 && |q| >= NonClues(cl)
    ensures var clue := IsValidCellNumber(cl[0]);
            var rest := if clue then q else q[1..];
            multiset(q[..NonClues(cl)]) == (if clue then multiset{} else multiset{q[0]}) + multiset(rest[..NonClues(cl[1..])])
  {
    var n := NonClues(cl[1..]);
    if IsValidCellNumber(cl[0]) {
      assert NonClues(cl) == n;
    } else {
      assert NonClues(cl) == n + 1;
      QueuePrefix(q, n);
    }
  }

  /** A queue prefix is its head and a prefix of the tail. */
  lemma QueuePrefix(q: seq<int>, n: nat)
    requires n < |q|
    ensures multiset(q[..n + 1]) == multiset{q[0]} + multiset(q[1..][..n])
  {
    assert q[..n + 1] == [q[0]] + q[1..][..n];
  }

  lemma EffectiveCons(cl: seq<int>, row: seq<int>)
    requires |cl| == |row| > 0
    ensures Effective(cl, row) == [Effective(cl, row)[0]] + Effective(cl[1..], row[1..])
  {
    var e := Effective(cl, row);
    var e' := Effective(cl[1..], row[1..]);
    forall j | 0 <= j < |e'|
      ensures e'[j] == e[j + 1]
    {
      assert cl[1..][j] == cl[j + 1];
    }
    assert e == [e[0]] + e[1..];
    assert e[1..] == e';
  }

  /** `unknownNumbers` before the shuffle: the digits not given as a clue in row `r`. */
  function Remaining(s: Sudoku, r: int): (u: seq<int>)
    requires WellFormed(s) && 0 <= r < 9
    ensures Ascending(u)
    ensures forall d :: d in u <==> 1 <= d <= 9 && d !in s.clues[r]
  {
    StrikeAscending(Digits(), RowClues(s.clues[r]));
    Strike(Digits(), RowClues(s.clues[r]))
  }

  /** The digits `shuffleRow` distributes are those of `findUnfilledNumberInRow`. */
  lemma RemainingIsUnfilledInRow(s: Sudoku, r: int)
    requires WellFormed(s) && 0 <= r < 9
    ensures Remaining(s, r) == UnfilledInRow(s, r)
  {
    forall d
      ensures d in Remaining(s, r) <==> d in UnfilledInRow(s, r)
    {
      if d in s.clues[r] {
        var j :| 0 <= j < 9 && s.clues[r][j] == d;
      }
    }
    AscendingUnique(Remaining(s, r), UnfilledInRow(s, r));
  }

  /** The effective values of row `r`. */
  function EffectiveRow(s: Sudoku, r: int): seq<int>
    requires WellFormed(s) && 0 <= r < 9
  {
    seq(9, j requires 0 <= j < 9 => CellValue(s, r, j))
  }

  /** `shuffleRow(r)`: the row's remaining digits, shuffled, fill its non-clue
      cells left to right. The shuffle outcome is given as `order`, a
      permutation of 1..9: the remaining digits are taken in that order. */
  function ShuffleRow(s: Sudoku, r: int, order: seq<int>): (t: Sudoku)
    requires WellFormed(s) && 0 <= r < 9 && IsOrdering(order, 1, 9)
    ensures WellFormed(t) && t.clues == s.clues
    ensures forall i :: 0 <= i < 9 && i != r ==> t.cands[i] == s.cands[i]
    ensures forall j :: 0 <= j < 9 && IsClue(s, r, j) ==> t.cands[r][j] == s.cands[r][j]
    ensures forall j :: 0 <= j < 9 && !IsClue(s, r, j) ==> t.cands[r][j] in UnfilledInRow(s, r)
    ensures forall i, j :: 0 <= i < j < 9 && !IsClue(s, r, i) && !IsClue(s, r, j) ==> t.cands[r][i] != t.cands[r][j]
    ensures Distinct(RowClues(s.clues[r])) ==> multiset(EffectiveRow(t, r)) == multiset(Digits())
  {
    WithRow(s, r, ShuffledRow(s, r, order))
  }

  /** Row `r` of the candidate grid replaced by `row`. */
  function WithRow(s: Sudoku, r: int, row: seq<int>): (t: Sudoku)
    requires WellFormed(s) && 0 <= r < 9 && |row| == 9
    ensures WellFormed(t) && t.clues == s.clues && t.cands[r] == row
    ensures forall i :: 0 <= i < 9 && i != r ==> t.cands[i] == s.cands[i]
    ensures EffectiveRow(t, r) == Effective(s.clues[r], row)
  {
    var t := Sudoku(s.clues, s.cands[r := row]);
    assert EffectiveRow(t, r) == Effective(s.clues[r], row);
    t
  }

  /** The new content of the shuffled row. */
  function ShuffledRow(s: Sudoku, r: int, order: seq<int>): (row: seq<int>)
    requires WellFormed(s) && 0 <= r < 9 && IsOrdering(order, 1, 9)
    ensures |row| == 9
    ensures forall j :: 0 <= j < 9 && IsClue(s, r, j) ==> row[j] == s.cands[r][j]
    ensures forall j :: 0 <= j < 9 && !IsClue(s, r, j) ==> row[j] in UnfilledInRow(s, r)
    ensures forall i, j :: 0 <= i < j < 9 && !IsClue(s, r, i) && !IsClue(s, r, j) ==> row[i] != row[j]
    ensures Distinct(RowClues(s.clues[r])) ==> multiset(Effective(s.clues[r], row)) == multiset(Digits())
  {
    ShuffleRowQueue(s, r, order);
    ShuffledRowValues(s, r, order);
    ShuffledRowMultiset(s, r, order);
    Place(s.clues[r], s.cands[r], Keep(order, Remaining(s, r)))
  }

  lemma ShuffledRowValues(s: Sudoku, r: int, order: seq<int>)
    requires WellFormed(s) && 0 <= r < 9 && IsOrdering(order, 1, 9)
    requires |Keep(order, Remaining(s, r))| >= NonClues(s.clues[r])
    ensures var row := Place(s.clues[r], s.cands[r], Keep(order, Remaining(s, r)));
            && (forall j :: 0 <= j < 9 && !IsClue(s, r, j) ==> row[j] in UnfilledInRow(s, r))
            && (forall i, j :: 0 <= i < j < 9 && !IsClue(s, r, i) && !IsClue(s, r, j) ==> row[i] != row[j])
  {
    var cl := s.clues[r];
    var queue := Keep(order, Remaining(s, r));
    ShuffleRowQueue(s, r, order);
    PlaceFromQueue(cl, s.cands[r], queue);
    PlaceDistinct(cl, s.cands[r], queue);
    RemainingIsUnfilledInRow(s, r);
    var row := Place(cl, s.cands[r], queue);
    forall j | 0 <= j < 9 && !IsClue(s, r, j)
      ensures row[j] in UnfilledInRow(s, r)
    {
      assert row[j] in queue[..NonClues(cl)];
      assert row[j] in queue;
    }
  }

  lemma ShuffledRowMultiset(s: Sudoku, r: int, order: seq<int>)
    requires WellFormed(s) && 0 <= r < 9 && IsOrdering(order, 1, 9)
    requires |Keep(order, Remaining(s, r))| >= NonClues(s.clues[r])
    ensures Distinct(RowClues(s.clues[r])) ==>
              multiset(Effective(s.clues[r], Place(s.clues[r], s.cands[r], Keep(order, Remaining(s, r))))) == multiset(Digits())
  {
    var cl := s.clues[r];
    var queue := Keep(order, Remaining(s, r));
    if Distinct(RowClues(cl)) {
      ShuffleRowQueue(s, r, order);
      PlaceMultiset(cl, s.cands[r], queue);
      var n := NonClues(cl);
      assert |queue| == n;
      WholePrefix(queue, n);
      var e := Effective(cl, Place(cl, s.cands[r], queue));
      SumCommutes(multiset(e), multiset(RowClues(cl)), multiset(queue), multiset(Digits()));
    }
  }

  lemma WholePrefix(xs: seq<int>, n: nat)
    requires |xs| == n
    ensures xs[..n] == xs
  {
  }

  lemma SumCommutes(a: multiset<int>, b: multiset<int>, c: multiset<int>, d: multiset<int>)
    requires a == b + c && c + b == d
    ensures a == d
  {
  }

  /** The shuffled queue is a permutation of the remaining digits, long enough
      for every non-clue cell of the row, and exactly as long when the row's
      clues are pairwise distinct. */
  lemma ShuffleRowQueue(s: Sudoku, r: int, order: seq<int>)
    requires WellFormed(s) && 0 <= r < 9 && IsOrdering(order, 1, 9)
    ensures Distinct(Keep(order, Remaining(s, r)))
    ensures multiset(Keep(order, Remaining(s, r))) == multiset(Remaining(s, r))
    ensures |Keep(order, Remaining(s, r))| >= NonClues(s.clues[r])
    ensures Distinct(RowClues(s.clues[r])) ==> |Keep(order, Remaining(s, r))| == NonClues(s.clues[r])
    ensures Distinct(RowClues(s.clues[r])) ==>
              multiset(Keep(order, Remaining(s, r))) + multiset(RowClues(s.clues[r])) == multiset(Digits())
  {
    var cl := s.clues[r];
    var remaining := Remaining(s, r);
    var queue := Keep(order, remaining);
    KeepSubsequence(order, remaining);
    SameElementsPermutation(queue, remaining);
    StrikeLength(Digits(), RowClues(cl));
    if Distinct(RowClues(cl)) {
      StrikeExact(Digits(), RowClues(cl));
      assert |multiset(remaining)| + |multiset(RowClues(cl))| == |multiset(Digits())|;
    }
  }

  /** `mutate`: `shuffleRow` on the row `(int) (Math.random() * 9)` for the draw `draw`.
      At most one row of the candidate grid changes, and no clue cell's. */
  function Mutate(s: Sudoku, draw: Draw, order: seq<int>): (t: Sudoku)
    requires WellFormed(s) && ValidDraw(draw) && IsOrdering(order, 1, 9)
    ensures WellFormed(t) && t.clues == s.clues
    ensures forall i1, i2 :: 0 <= i1 < i2 < 9 ==> t.cands[i1] == s.cands[i1] || t.cands[i2] == s.cands[i2]
    ensures forall i, j :: InGrid(i, j) && IsClue(s, i, j) ==> t.cands[i][j] == s.cands[i][j]
    ensures var r := Pick(draw, 9);
            && (forall i :: 0 <= i < 9 && i != r ==> t.cands[i] == s.cands[i])
            && (forall j :: 0 <= j < 9 && !IsClue(s, r, j) ==> t.cands[r][j] in UnfilledInRow(s, r))
            && (forall i, j :: 0 <= i < j < 9 && !IsClue(s, r, i) && !IsClue(s, r, j) ==> t.cands[r][i] != t.cands[r][j])
            && (Distinct(RowClues(s.clues[r])) ==> multiset(EffectiveRow(t, r)) == multiset(Digits()))
  {
    ShuffleRow(s, Pick(draw, 9), order)
  }

  /** `row` is a possible outcome of `shuffleRow(r)` on `s`: its non-clue cells
      hold pairwise different digits legal for the row, and when the row's
      clues are pairwise distinct its effective values are 1..9. */
  predicate ReshuffledRow(s: Sudoku, r: int, row: seq<int>)
    requires WellFormed(s) && 0 <= r < 9
  {
    && |row| == 9
    && (forall j :: 0 <= j < 9 && !IsClue(s, r, j) ==> row[j] in UnfilledInRow(s, r))
    && (forall i, j :: 0 <= i < j < 9 && !IsClue(s, r, i) && !IsClue(s, r, j) ==> row[i] != row[j])
    && (Distinct(RowClues(s.clues[r])) ==> multiset(Effective(s.clues[r], row)) == multiset(Digits()))
  }

  /** `y` is `x` with some candidate rows reshuffled: the clue grid and every
      clue cell are kept, and each row that differs is a reshuffle of the row. */
  predicate Reshuffled(x: Sudoku, y: Sudoku)
    requires WellFormed(x) && WellFormed(y)
  {
    && y.clues == x.clues
    && (forall r, j :: 0 <= r < 9 && 0 <= j < 9 && IsClue(x, r, j) ==> y.cands[r][j] == x.cands[r][j])
    && (forall r :: 0 <= r < 9 && y.cands[r] != x.cands[r] ==> ReshuffledRow(x, r, y.cands[r]))
  }

  /** A mutation reshuffles its chromosome. */
  lemma MutateReshuffles(s: Sudoku, draw: Draw, order: seq<int>)
    requires WellFormed(s) && ValidDraw(draw) && IsOrdering(order, 1, 9)
    ensures Reshuffled(s, Mutate(s, draw, order))
  {
    var r := Pick(draw, 9);
    assert Mutate(s, draw, order).cands[r] == ShuffledRow(s, r, order);
  }

  /** Every chromosome is a reshuffle of itself. */
  lemma ReshuffledRefl(x: Sudoku)
    requires WellFormed(x)
    ensures Reshuffled(x, x)
  {
  }

  /** Whether a row is a reshuffle depends on the clue grid only. */
  lemma ReshuffledRowClues(s: Sudoku, t: Sudoku, r: int, row: seq<int>)
    requires WellFormed(s) && WellFormed(t) && s.clues == t.clues && 0 <= r < 9
    requires ReshuffledRow(s, r, row)
    ensures ReshuffledRow(t, r, row)
  {
    UnfilledOnlyReadsClues(s, t, r, 0);
  }

  /** A reshuffle of a reshuffle is a reshuffle, so any number of mutations is one. */
  lemma ReshuffledTrans(x: Sudoku, y: Sudoku, z: Sudoku)
    requires WellFormed(x) && WellFormed(y) && WellFormed(z)
    requires Reshuffled(x, y) && Reshuffled(y, z)
    ensures Reshuffled(x, z)
  {
    forall r | 0 <= r < 9 && z.cands[r] != x.cands[r]
      ensures ReshuffledRow(x, r, z.cands[r])
    {
      if z.cands[r] != y.cands[r] {
        ReshuffledRowClues(y, x, r, z.cands[r]);
      }
    }
  }

  // ---------------------------------------------------------------------------
  // fillUnknownCellsRandomly
  // ---------------------------------------------------------------------------

  /** Draws for every cell of the grid, indexed by the cell. */
  type CellDraws = (int, int) -> Draw

  ghost predicate ValidCellDraws(f: CellDraws) {
    forall r, c :: InGrid(r, c) ==> ValidDraw(f(r, c))
  }

  /** Some digit occurs in all three lists. */
  predicate CommonDigit(row: seq<int>, inColumn: seq<int>, inBox: seq<int>) {
    exists d :: d in row && d in inColumn && d in inBox
  }

  /** The fill's choice from the row's, the column's and the box's legal-digit
      lists: a digit common to all three if one exists (`findAny`, whose pick
      is the draw `any`), otherwise the row's digit at
      `(int) (Math.random() * size)`. The sentinel 0 of `orElse(0)` is never
      a digit, so it marks exactly the case without a common digit. */
  function FillChoice(row: seq<int>, inColumn: seq<int>, inBox: seq<int>, any: Draw, fallback: Draw): (v: int)
    requires |row| > 0 && (forall d :: d in row ==> 1 <= d <= 9) && ValidDraw(any) && ValidDraw(fallback)
    ensures v in row
    ensures CommonDigit(row, inColumn, inBox) ==> v in inColumn && v in inBox
  {
    var matches := Keep(Keep(row, inColumn), inBox);
    var matchInt := if |matches| > 0 then matches[Pick(any, |matches|)] else 0;
    FillValueCases(row, inColumn, inBox, matches, matchInt);
    if matchInt != 0 then matchInt else row[Pick(fallback, |row|)]
  }

  /** The value the fill writes into non-clue cell (i, j): a digit legal for
      its row, and legal for its column and box as well when such a digit
      exists. */
  function FillValue(s: Sudoku, i: int, j: int, any: Draw, fallback: Draw): (v: int)
    requires WellFormed(s) && InGrid(i, j) && !IsClue(s, i, j) && ValidDraw(any) && ValidDraw(fallback)
    ensures v in UnfilledInRow(s, i)
    ensures CommonDigit(UnfilledInRow(s, i), UnfilledInColumn(s, j), UnfilledInBox(s, i, j)) ==>
              v in UnfilledInColumn(s, j) && v in UnfilledInBox(s, i, j)
  {
    UnfilledRowNonEmpty(s, i, j);
    FillChoice(UnfilledInRow(s, i), UnfilledInColumn(s, j), UnfilledInBox(s, i, j), any, fallback)
  }

  lemma FillValueCases(row: seq<int>, inColumn: seq<int>, inBox: seq<int>, matches: seq<int>, matchInt: int)
    requires forall d :: d in row ==> 1 <= d <= 9
    requires matches == Keep(Keep(row, inColumn), inBox)
    requires matchInt == 0 || matchInt in matches
    requires |matches| > 0 ==> matchInt in matches
    ensures matchInt != 0 ==> matchInt in row && matchInt in inColumn && matchInt in inBox
    ensures CommonDigit(row, inColumn, inBox) ==> matchInt != 0
  {
    if CommonDigit(row, inColumn, inBox) {
      var d :| d in row && d in inColumn && d in inBox;
      assert d in matches;
    }
  }

  /** The fill's choice at a cell reads the clue grid only. */
  lemma FillValueOnlyReadsClues(s: Sudoku, t: Sudoku, any: CellDraws, fallback: CellDraws)
    requires WellFormed(s) && WellFormed(t) && s.clues == t.clues
    requires ValidCellDraws(any) && ValidCellDraws(fallback)
    ensures forall i, j :: InGrid(i, j) && !IsClue(s, i, j) ==>
              FillValue(s, i, j, any(i, j), fallback(i, j)) == FillValue(t, i, j, any(i, j), fallback(i, j))
  {
    forall i, j | InGrid(i, j) && !IsClue(s, i, j)
      ensures FillValue(s, i, j, any(i, j), fallback(i, j)) == FillValue(t, i, j, any(i, j), fallback(i, j))
    {
      FillValueReadsClues(s, t, i, j, any(i, j), fallback(i, j));
    }
  }

  lemma FillValueReadsClues(s: Sudoku, t: Sudoku, i: int, j: int, any: Draw, fallback: Draw)
    requires WellFormed(s) && WellFormed(t) && s.clues == t.clues
    requires InGrid(i, j) && !IsClue(s, i, j) && ValidDraw(any) && ValidDraw(fallback)
    ensures FillValue(s, i, j, any, fallback) == FillValue(t, i, j, any, fallback)
  {
    UnfilledOnlyReadsClues(s, t, i, j);
  }

  /** One step of the fill: cell (i, j) receives its choice unless it is a clue. */
  function FillCell(s: Sudoku, i: int, j: int, any: CellDraws, fallback: CellDraws): (t: Sudoku)
    requires WellFormed(s) && InGrid(i, j)
    requires ValidCellDraws(any) && ValidCellDraws(fallback)
    ensures WellFormed(t) && t.clues == s.clues
    ensures IsClue(s, i, j) ==> t == s
    ensures !IsClue(s, i, j) ==> t.cands[i][j] == FillValue(s, i, j, any(i, j), fallback(i, j))
    ensures forall r, c :: InGrid(r, c) && (r, c) != (i, j) ==> t.cands[r][c] == s.cands[r][c]
  {
    if IsClue(s, i, j) then s
    else
      WithCell(s, i, j, FillValue(s, i, j, any(i, j), fallback(i, j)))
  }

  /** Cell (i, j) of the candidate grid set to `v`. */
  function WithCell(s: Sudoku, i: int, j: int, v: int): (t: Sudoku)
    requires WellFormed(s) && InGrid(i, j)
    ensures WellFormed(t) && t.clues == s.clues && t.cands[i][j] == v
    ensures forall r, c :: InGrid(r, c) && (r, c) != (i, j) ==> t.cands[r][c] == s.cands[r][c]
  {
    Sudoku(s.clues, s.cands[i := s.cands[i][j := v]])
  }

  /** The inner loop of the fill: the cells of row `i`, in column order `cols`. */
  function FillRow(s: Sudoku, i: int, cols: seq<int>, any: CellDraws, fallback: CellDraws): (t: Sudoku)
    requires WellFormed(s) && 0 <= i < 9 && forall k :: 0 <= k < |cols| ==> 0 <= cols[k] < 9
    requires ValidCellDraws(any) && ValidCellDraws(fallback)
    ensures WellFormed(t) && t.clues == s.clues
    ensures forall r, c :: InGrid(r, c) ==>
              t.cands[r][c] == if r == i && c in cols && !IsClue(s, r, c)
                               then FillValue(s, r, c, any(r, c), fallback(r, c)) else s.cands[r][c]
    decreases |cols|
  {
    if |cols| == 0 then s
    else
      var next := FillCell(s, i, cols[0], any, fallback);
      var t := FillRow(next, i, cols[1..], any, fallback);
      FillRowStep(s, next, t, i, cols, any, fallback);
      t
  }

  /** A filled cell followed by the rest of the row covers the visited columns. */
  lemma FillRowStep(s: Sudoku, next: Sudoku, t: Sudoku, i: int, cols: seq<int>, any: CellDraws, fallback: CellDraws)
    requires WellFormed(s) && WellFormed(next) && WellFormed(t) && next.clues == s.clues && t.clues == s.clues
    requires 0 <= i < 9 && |cols| > 0 && 0 <= cols[0] < 9
    requires ValidCellDraws(any) && ValidCellDraws(fallback)
    requires IsClue(s, i, cols[0]) ==> next == s
    requires !IsClue(s, i, cols[0]) ==> next.cands[i][cols[0]] == FillValue(s, i, cols[0], any(i, cols[0]), fallback(i, cols[0]))
    requires forall r, c :: InGrid(r, c) && (r, c) != (i, cols[0]) ==> next.cands[r][c] == s.cands[r][c]
    requires forall r, c :: InGrid(r, c) ==>
               t.cands[r][c] == if r == i && c in cols[1..] && !IsClue(next, r, c)
                                then FillValue(next, r, c, any(r, c), fallback(r, c)) else next.cands[r][c]
    ensures forall r, c :: InGrid(r, c) ==>
              t.cands[r][c] == if r == i && c in cols && !IsClue(s, r, c)
                               then FillValue(s, r, c, any(r, c), fallback(r, c)) else s.cands[r][c]
  {
    assert forall c :: c in cols <==> c == cols[0] || c in cols[1..] by {
      assert cols == [cols[0]] + cols[1..];
    }
    forall r, c | InGrid(r, c)
      ensures t.cands[r][c] == if r == i && c in cols && !IsClue(s, r, c)
                               then FillValue(s, r, c, any(r, c), fallback(r, c)) else s.cands[r][c]
    {
      FillRowCell(s, next, i, cols, r, c, any(r, c), fallback(r, c), t.cands[r][c]);
    }
  }

  /** `FillRowStep` at one cell `(r, c)`, whose final value is `v`. */
  lemma FillRowCell(s: Sudoku, next: Sudoku, i: int, cols: seq<int>, r: int, c: int, a: Draw, b: Draw, v: int)
    requires WellFormed(s) && WellFormed(next) && next.clues == s.clues
    requires 0 <= i < 9 && |cols| > 0 && InGrid(r, c) && ValidDraw(a) && ValidDraw(b)
    requires c in cols <==> c == cols[0] || c in cols[1..]
    requires next.cands[r][c] == if r == i && c == cols[0] && !IsClue(s, r, c)
                                 then FillValue(s, r, c, a, b) else s.cands[r][c]
    requires v == if r == i && c in cols[1..] && !IsClue(next, r, c)
                  then FillValue(next, r, c, a, b) else next.cands[r][c]
    ensures v == if r == i && c in cols && !IsClue(s, r, c)
                 then FillValue(s, r, c, a, b) else s.cands[r][c]
  {
    if r == i && c in cols[1..] && !IsClue(s, r, c) {
      FillValueReadsClues(s, next, r, c, a, b);
    }
  }

  /** The outer loop of the fill: rows in order `rows`, the `k`-th visited row
      in column order `colOrders[k]`. */
  function FillRows(s: Sudoku, rows: seq<int>, colOrders: seq<seq<int>>, any: CellDraws, fallback: CellDraws): (t: Sudoku)
    requires WellFormed(s) && forall k :: 0 <= k < |rows| ==> 0 <= rows[k] < 9
    requires |colOrders| == |rows| && forall k :: 0 <= k < |rows| ==> IsOrdering(colOrders[k], 0, 9)
    requires ValidCellDraws(any) && ValidCellDraws(fallback)
    ensures WellFormed(t) && t.clues == s.clues
    ensures forall r, c :: InGrid(r, c) ==>
              t.cands[r][c] == if r in rows && !IsClue(s, r, c)
                               then FillValue(s, r, c, any(r, c), fallback(r, c)) else s.cands[r][c]
    decreases |rows|
  {
    if |rows| == 0 then s
    else
      assert IsOrdering(colOrders[0], 0, 9);
      var next := FillRow(s, rows[0], colOrders[0], any, fallback);
      var t := FillRows(next, rows[1..], colOrders[1..], any, fallback);
      FillRowsStep(s, next, t, rows, colOrders[0], any, fallback);
      t
  }

  /** A visited row followed by the remaining rows covers all visited rows. */
  lemma FillRowsStep(s: Sudoku, next: Sudoku, t: Sudoku, rows: seq<int>, cols: seq<int>, any: CellDraws, fallback: CellDraws)
    requires WellFormed(s) && WellFormed(next) && WellFormed(t) && next.clues == s.clues && t.clues == s.clues
    requires |rows| > 0 && 0 <= rows[0] < 9 && IsOrdering(cols, 0, 9)
    requires ValidCellDraws(any) && ValidCellDraws(fallback)
    requires forall r, c :: InGrid(r, c) ==>
               next.cands[r][c] == if r == rows[0] && c in cols && !IsClue(s, r, c)
                                   then FillValue(s, r, c, any(r, c), fallback(r, c)) else s.cands[r][c]
    requires forall r, c :: InGrid(r, c) ==>
               t.cands[r][c] == if r in rows[1..] && !IsClue(next, r, c)
                                then FillValue(next, r, c, any(r, c), fallback(r, c)) else next.cands[r][c]
    ensures forall r, c :: InGrid(r, c) ==>
              t.cands[r][c] == if r in rows && !IsClue(s, r, c)
                               then FillValue(s, r, c, any(r, c), fallback(r, c)) else s.cands[r][c]
  {
    FillValueOnlyReadsClues(s, next, any, fallback);
    assert forall c :: 0 <= c < 9 ==> c in cols;
    assert forall r :: r in rows <==> r == rows[0] || r in rows[1..] by {
      assert rows == [rows[0]] + rows[1..];
    }
  }

  /** `fillUnknownCellsRandomly` with the row shuffle `rowOrder`, the column
      shuffle of each visited row, and the per-cell draws. Clue cells and the
      clue grid are never written; every other cell receives a legal digit of
      its row, one legal for its column and box as well when one exists. The
      result does not depend on the traversal order: it is the choice made on
      the original chromosome at every cell. */
  function FillUnknownCellsRandomly(s: Sudoku, rowOrder: seq<int>, colOrders: seq<seq<int>>, any: CellDraws, fallback: CellDraws): (t: Sudoku)
    requires WellFormed(s) && IsOrdering(rowOrder, 0, 9)
    requires |colOrders| == 9 && forall k :: 0 <= k < 9 ==> IsOrdering(colOrders[k], 0, 9)
    requires ValidCellDraws(any) && ValidCellDraws(fallback)
    ensures WellFormed(t) && t.clues == s.clues
    ensures forall i, j :: InGrid(i, j) && IsClue(s, i, j) ==> t.cands[i][j] == s.cands[i][j]
    ensures forall i, j :: InGrid(i, j) && !IsClue(s, i, j) ==>
              t.cands[i][j] == FillValue(s, i, j, any(i, j), fallback(i, j))
    ensures forall i, j :: InGrid(i, j) && !IsClue(s, i, j) ==> t.cands[i][j] in UnfilledInRow(s, i)
    ensures forall i, j :: InGrid(i, j) && !IsClue(s, i, j) &&
              CommonDigit(UnfilledInRow(s, i), UnfilledInColumn(s, j), UnfilledInBox(s, i, j))
              ==> t.cands[i][j] in UnfilledInColumn(s, j) && t.cands[i][j] in UnfilledInBox(s, i, j)
  {
    assert forall r :: 0 <= r < 9 ==> r in rowOrder;
    FillRows(s, rowOrder, colOrders, any, fallback)
  }

  /** Two traversal orders give the same chromosome. */
  lemma FillOrderIrrelevant(s: Sudoku, rows1: seq<int>, cols1: seq<seq<int>>, rows2: seq<int>, cols2: seq<seq<int>>,
                            any: CellDraws, fallback: CellDraws)
    requires WellFormed(s) && IsOrdering(rows1, 0, 9) && IsOrdering(rows2, 0, 9)
    requires |cols1| == 9 && forall k :: 0 <= k < 9 ==> IsOrdering(cols1[k], 0, 9)
    requires |cols2| == 9 && forall k :: 0 <= k < 9 ==> IsOrdering(cols2[k], 0, 9)
    requires ValidCellDraws(any) && ValidCellDraws(fallback)
    ensures FillUnknownCellsRandomly(s, rows1, cols1, any, fallback) == FillUnknownCellsRandomly(s, rows2, cols2, any, fallback)
  {
    var t1 := FillUnknownCellsRandomly(s, rows1, cols1, any, fallback);
    var t2 := FillUnknownCellsRandomly(s, rows2, cols2, any, fallback);
    forall i | 0 <= i < 9
      ensures t1.cands[i] == t2.cands[i]
    {
      forall j | 0 <= j < 9
        ensures t1.cands[i][j] == t2.cands[i][j]
      {
      }
    }
  }
}
