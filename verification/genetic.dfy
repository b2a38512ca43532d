/** The generational engine of `GeneticSearch.java`, fixed to the Sudoku
    chromosome. A population is a sequence of chromosome values; the engine's
    in-place updates become functions from one population to the next, and a
    reference into the population becomes a position. Every random choice is
    a parameter. */
module GeneticSearch {
  import opened Draws
  import opened SudokuChromosome
  import opened Fitness

  datatype Option<T> = None | Some(value: T)

  type Population = seq<Sudoku>

  predicate ValidPopulation(pop: Population) {
    forall i :: 0 <= i < |pop| ==> WellFormed(pop[i])
  }

  /** Every chromosome carries the clue grid `clues`. */
  predicate SameClues(pop: Population, clues: seq<seq<int>>) {
    forall i :: 0 <= i < |pop| ==> pop[i].clues == clues
  }

  /** The fitness of every member, in population order. */
  function Fitnesses(pop: Population): (fs: seq<int>)
    requires ValidPopulation(pop)
    ensures |fs| == |pop| && forall i :: 0 <= i < |pop| ==> fs[i] == Score(pop[i])
  {
    seq(|pop|, i requires 0 <= i < |pop| => Score(pop[i]))
  }

  // ---------------------------------------------------------------------------
  // getRandomCountOfSelectedPopulation
  // ---------------------------------------------------------------------------

  /** `getRandomCountOfSelectedPopulation(xs)`: nothing from a list of at most
      one element; otherwise `(long) (Math.random() * size)` elements (the
      draw `count`), the `k`-th of them at the index `elems(k)` selects, drawn
      with replacement. */
  function Sample<T>(xs: seq<T>, count: Draw, elems: nat -> Draw): (r: seq<T>)
    requires ValidDraw(count) && forall k: nat :: ValidDraw(elems(k))
    ensures |xs| <= 1 ==> r == []
    ensures |xs| > 1 ==> |r| < |xs|
    ensures forall i :: 0 <= i < |r| ==> r[i] in xs
  {
    if |xs| <= 1 then []
    else
      var r := seq(Pick(count, |xs|), k requires k >= 0 => xs[Pick(elems(k), |xs|)]);
      assert forall i :: 0 <= i < |r| ==> r[i] == xs[Pick(elems(i), |xs|)];
      r
  }

  /** Every list of fewer than `|xs|` elements of `xs`, repeats allowed, is a
      possible sample. */
  lemma SampleReaches<T>(xs: seq<T>, picks: seq<nat>) returns (count: Draw, elems: nat -> Draw)
    requires |xs| > 1 && |picks| < |xs|
    requires forall i :: 0 <= i < |picks| ==> picks[i] < |xs|
    ensures ValidDraw(count) && forall k: nat :: ValidDraw(elems(k))
    ensures Sample(xs, count, elems) == seq(|picks|, i requires 0 <= i < |picks| => xs[picks[i]])
  {
    count := (n: nat) => if n == |xs| then |picks| else 0;
    elems := (k: nat) => (n: nat) => if n == |xs| && k < |picks| then picks[k] else 0;
    assert forall k: nat :: ValidDraw(elems(k)) by {
      forall k: nat, n: nat | n > 0
        ensures elems(k)(n) < n
      {
      }
    }
  }

  /** The positions 0 .. n-1: a population's members seen as references. */
  function Positions(n: nat): (ps: seq<nat>)
    ensures |ps| == n && forall i :: 0 <= i < n ==> ps[i] == i
  {
    seq(n, i requires 0 <= i < n => i)
  }

  /** `selection()`: a sample of the population, as positions. */
  function Selection(pop: Population, count: Draw, elems: nat -> Draw): (sel: seq<nat>)
    requires ValidDraw(count) && forall k: nat :: ValidDraw(elems(k))
    ensures |pop| <= 1 ==> sel == []
    ensures |pop| > 1 ==> |sel| < |pop|
    ensures forall i :: 0 <= i < |sel| ==> sel[i] < |pop|
  {
    var sel := Sample(Positions(|pop|), count, elems);
    assert forall i :: 0 <= i < |sel| ==> sel[i] in Positions(|pop|);
    sel
  }

  // ---------------------------------------------------------------------------
  // findBestScoreElement
  // ---------------------------------------------------------------------------

  /** `stream().max(comparing(getFitnessScore))` on the fitness list: the
      position of the first maximum, since the reduction keeps the earlier
      element on a tie. */
  function BestIndex(fs: seq<int>): (b: nat)
    requires |fs| > 0
    ensures b < |fs|
    ensures forall i :: 0 <= i < |fs| ==> fs[i] <= fs[b]
    ensures forall i :: 0 <= i < b ==> fs[i] < fs[b]
  {
    if |fs| == 1 then 0
    else
      var b := BestIndex(fs[..|fs| - 1]);
      if fs[b] >= fs[|fs| - 1] then b else |fs| - 1
  }

  /** The first maximum is unique: any position holding a maximum that no
      earlier position equals is the one `BestIndex` returns. */
  lemma BestIndexIsFirstMaximum(fs: seq<int>, b: nat)
    requires b < |fs|
    requires forall i :: 0 <= i < |fs| ==> fs[i] <= fs[b]
    requires forall i :: 0 <= i < b ==> fs[i] < fs[b]
    ensures BestIndex(fs) == b
  {
  }

  /** `findBestScoreElement`: a member no other member outscores. */
  function FindBest(pop: Population): (best: Sudoku)
    requires |pop| > 0 && ValidPopulation(pop)
    ensures best in pop && WellFormed(best)
    ensures forall i :: 0 <= i < |pop| ==> Score(pop[i]) <= Score(best)
  {
    pop[BestIndex(Fitnesses(pop))]
  }

  // ---------------------------------------------------------------------------
  // crossover
  // ---------------------------------------------------------------------------

  /** The draws of one iteration of the crossover loop: the index of
      `parent1`, the successive indices the inner `while` draws for
      `parent2`, and the row shuffle of `Sudoku.crossover`. */
  datatype Round = Round(first: Draw, redraws: seq<Draw>, order: seq<int>)

  ghost predicate ValidRound(rd: Round) {
    && ValidDraw(rd.first)
    && (forall j :: 0 <= j < |rd.redraws| ==> ValidDraw(rd.redraws[j]))
    && IsOrdering(rd.order, 0, 9)
  }

  /** The inner `while (parent2 != parent1)` loop as written: it draws until
      the drawn element IS `parent1`. The result is the number of the draw
      that ends it, or None when none of the given draws does. */
  function SecondParent(sel: seq<nat>, a: nat, redraws: seq<Draw>): (j: Option<nat>)
    requires a < |sel|
    requires forall j :: 0 <= j < |redraws| ==> ValidDraw(redraws[j])
    ensures j.Some? ==> j.value < |redraws| && sel[Pick(redraws[j.value], |sel|)] == sel[a]
    ensures j.Some? ==> forall j' :: 0 <= j' < j.value ==> sel[Pick(redraws[j'], |sel|)] != sel[a]
    ensures j.None? ==> forall j' :: 0 <= j' < |redraws| ==> sel[Pick(redraws[j'], |sel|)] != sel[a]
  {
    if |redraws| == 0 then None
    else if sel[Pick(redraws[0], |sel|)] == sel[a] then Some(0)
    else
      match SecondParent(sel, a, redraws[1..])
      case None => None
      case Some(j) => Some(j + 1)
  }

  /** `parent1`: the selected member the round's first draw picks, as a position. */
  function FirstParent(sel: seq<nat>, rd: Round): (p: nat)
    requires |sel| > 0 && ValidRound(rd)
    ensures p in sel
  {
    sel[Pick(rd.first, |sel|)]
  }

  /** The two parents of one child, as positions. */
  datatype Couple = Couple(first: nat, second: nat)

  /** The parents the crossover loop as written chooses, one couple per
      round, or None when a round's inner loop does not finish within its
      draws. Each couple is a member paired with itself. */
  function Couples(sel: seq<nat>, rounds: seq<Round>): (cs: Option<seq<Couple>>)
    requires |sel| > 0 && forall k :: 0 <= k < |rounds| ==> ValidRound(rounds[k])
    ensures cs.Some? ==> |cs.value| == |rounds|
    ensures cs.Some? ==> forall k :: 0 <= k < |rounds| ==>
              cs.value[k].first == FirstParent(sel, rounds[k]) && cs.value[k].second == cs.value[k].first
  {
    if |rounds| == 0 then Some([])
    else
      var rd := rounds[0];
      assert ValidRound(rd);
      var a := Pick(rd.first, |sel|);
      match SecondParent(sel, a, rd.redraws)
      case None => None
      case Some(j) =>
        var couple := Couple(sel[a], sel[Pick(rd.redraws[j], |sel|)]);
        match Couples(sel, rounds[1..])
        case None => None
        case Some(rest) => Some([couple] + rest)
  }

  /** `parent1.crossover(parent2)` for every couple, with the row shuffle of its round. */
  function Children(pop: Population, cs: seq<Couple>, rounds: seq<Round>): (kids: Population)
    requires ValidPopulation(pop) && |cs| == |rounds|
    requires forall k :: 0 <= k < |cs| ==> cs[k].first < |pop| && cs[k].second < |pop|
    requires forall k :: 0 <= k < |rounds| ==> ValidRound(rounds[k])
    ensures |kids| == |cs| && ValidPopulation(kids)
    ensures forall k :: 0 <= k < |cs| ==> ValidRound(rounds[k]) && kids[k] == Crossover(pop[cs[k].first], pop[cs[k].second], rounds[k].order)
  {
    seq(|cs|, k requires 0 <= k < |cs| => assert ValidRound(rounds[k]); Crossover(pop[cs[k].first], pop[cs[k].second], rounds[k].order))
  }

  /** The rounds of the crossover loop. Its test `i < Math.random() * size`
      draws afresh on every iteration, so any number of rounds from 0 to the
      selection's size can occur; `roundCount` picks that number. */
  function RoundsOf(sel: seq<nat>, roundCount: Draw, rounds: nat -> Round): (rs: seq<Round>)
    requires ValidDraw(roundCount) && forall k: nat :: ValidRound(rounds(k))
    ensures |rs| <= |sel| && forall k :: 0 <= k < |rs| ==> rs[k] == rounds(k) && ValidRound(rs[k])
  {
    seq(Pick(roundCount, |sel| + 1), k requires k >= 0 => rounds(k))
  }

  /** `crossover(selectElements)` as written: the children are appended to
      the population. Since the inner loop ends only on `parent2 == parent1`,
      every child is a copy of a selected member. */
  function CrossoverStep(pop: Population, sel: seq<nat>, roundCount: Draw, rounds: nat -> Round): (next: Option<Population>)
    requires ValidPopulation(pop) && forall i :: 0 <= i < |sel| ==> sel[i] < |pop|
    requires ValidDraw(roundCount) && forall k: nat :: ValidRound(rounds(k))
    ensures |sel| == 0 ==> next == Some(pop)
    ensures next.Some? ==> |pop| <= |next.value| <= |pop| + |sel| && next.value[..|pop|] == pop && ValidPopulation(next.value)
    ensures next.Some? ==> forall i :: |pop| <= i < |next.value| ==> exists k :: 0 <= k < |sel| && next.value[i] == pop[sel[k]]
  {
    if |sel| == 0 then Some(pop)
    else
      var rs := RoundsOf(sel, roundCount, rounds);
      match Couples(sel, rs)
      case None => None
      case Some(cs) =>
        var next := pop + Children(pop, cs, rs);
        forall i | |pop| <= i < |next|
          ensures exists k :: 0 <= k < |sel| && next[i] == pop[sel[k]]
        {
          var c := cs[i - |pop|];
          CrossoverWithItself(pop[c.first], rs[i - |pop|].order);
          var k :| 0 <= k < |sel| && sel[k] == c.first;
          assert next[i] == pop[sel[k]];
        }
        Some(next)
  }

  /** Old members stay and every child copies a selected member, so a clue
      grid shared by the population stays shared. */
  lemma CrossoverKeepsClues(pop: Population, sel: seq<nat>, roundCount: Draw, rounds: nat -> Round, c: seq<seq<int>>)
    requires ValidPopulation(pop) && forall i :: 0 <= i < |sel| ==> sel[i] < |pop|
    requires ValidDraw(roundCount) && forall k: nat :: ValidRound(rounds(k))
    ensures CrossoverStep(pop, sel, roundCount, rounds).Some? && SameClues(pop, c) ==>
              SameClues(CrossoverStep(pop, sel, roundCount, rounds).value, c)
  {
    var next := CrossoverStep(pop, sel, roundCount, rounds);
    if next.Some? && SameClues(pop, c) {
      forall i | 0 <= i < |next.value|
        ensures next.value[i].clues == c
      {
        if i < |pop| {
          assert next.value[i] == next.value[..|pop|][i];
        }
      }
    }
  }

  // ---------------------------------------------------------------------------
  // mutate
  // ---------------------------------------------------------------------------

  /** One member mutated in place. */
  function MutateMember(pop: Population, p: nat, row: Draw, order: seq<int>): (next: Population)
    requires ValidPopulation(pop) && p < |pop| && ValidDraw(row) && IsOrdering(order, 1, 9)
    ensures |next| == |pop| && ValidPopulation(next)
    ensures forall q :: 0 <= q < |pop| ==> next[q].clues == pop[q].clues
    ensures forall q :: 0 <= q < |pop| && q != p ==> next[q] == pop[q]
    ensures next[p] == Mutate(pop[p], row, order)
    ensures AllReshuffled(pop, next)
  {
    var x := Mutate(pop[p], row, order);
    MutateReshuffles(pop[p], row, order);
    ReplaceReshuffles(pop, p, x);
    Replace(pop, p, x)
  }

  /** Replacing one member by a reshuffle of it reshuffles the population. */
  lemma ReplaceReshuffles(pop: Population, p: nat, x: Sudoku)
    requires ValidPopulation(pop) && p < |pop| && WellFormed(x) && x.clues == pop[p].clues
    requires Reshuffled(pop[p], x)
    ensures AllReshuffled(pop, Replace(pop, p, x))
  {
    var next := Replace(pop, p, x);
    forall q | 0 <= q < |pop|
      ensures Reshuffled(pop[q], next[q])
    {
      if q != p {
        ReshuffledRefl(pop[q]);
      }
    }
  }

  /** Every member of `next` is a reshuffle of the member at its position in `pop`. */
  predicate AllReshuffled(pop: Population, next: Population)
    requires ValidPopulation(pop) && ValidPopulation(next) && |next| == |pop|
  {
    forall p :: 0 <= p < |pop| ==> Reshuffled(pop[p], next[p])
  }

  /** Leaving a population alone reshuffles nothing. */
  lemma AllReshuffledRefl(pop: Population)
    requires ValidPopulation(pop)
    ensures AllReshuffled(pop, pop)
  {
    forall p | 0 <= p < |pop|
      ensures Reshuffled(pop[p], pop[p])
    {
      ReshuffledRefl(pop[p]);
    }
  }

  /** Reshuffling a population twice is a reshuffle. */
  lemma AllReshuffledTrans(a: Population, b: Population, c: Population)
    requires ValidPopulation(a) && ValidPopulation(b) && ValidPopulation(c) && |a| == |b| == |c|
    requires AllReshuffled(a, b) && AllReshuffled(b, c)
    ensures AllReshuffled(a, c)
  {
    forall p | 0 <= p < |a|
      ensures Reshuffled(a[p], c[p])
    {
      ReshuffledTrans(a[p], b[p], c[p]);
    }
  }

  /** The member at position `p` replaced by `x`, a chromosome with the same clue grid. */
  function Replace(pop: Population, p: nat, x: Sudoku): (next: Population)
    requires ValidPopulation(pop) && p < |pop| && WellFormed(x) && x.clues == pop[p].clues
    ensures |next| == |pop| && ValidPopulation(next) && next[p] == x
    ensures forall q :: 0 <= q < |pop| ==> next[q].clues == pop[q].clues
    ensures forall q :: 0 <= q < |pop| && q != p ==> next[q] == pop[q]
  {
    pop[p := x]
  }

  /** Some target from the `i`-th on is position `p`. */
  predicate Targeted(targets: seq<nat>, i: nat, p: nat) {
    exists k :: i <= k < |targets| && targets[k] == p
  }

  /** `forEach(Chromosome::mutate)` from the `i`-th target on: each target
      position is mutated in place, with its own row draw and shuffle. */
  function MutateTargets(pop: Population, targets: seq<nat>, rows: nat -> Draw, orders: nat -> seq<int>, i: nat): (next: Population)
    requires ValidPopulation(pop) && forall k :: 0 <= k < |targets| ==> targets[k] < |pop|
    requires forall k: nat :: ValidDraw(rows(k)) && IsOrdering(orders(k), 1, 9)
    requires i <= |targets|
    ensures |next| == |pop| && ValidPopulation(next)
    ensures forall p :: 0 <= p < |pop| ==> next[p].clues == pop[p].clues
    ensures forall p :: 0 <= p < |pop| && !Targeted(targets, i, p) ==> next[p] == pop[p]
    ensures AllReshuffled(pop, next)
    decreases |targets| - i
  {
    if i == |targets| then
      AllReshuffledRefl(pop);
      pop
    else
      var mutated := MutateMember(pop, targets[i], rows(i), orders(i));
      TargetedFrom(targets, i);
      var next := MutateTargets(mutated, targets, rows, orders, i + 1);
      AllReshuffledTrans(pop, mutated, next);
      next
  }

  /** A position targeted from the next target on, or by the `i`-th target,
      is targeted from the `i`-th on. */
  lemma TargetedFrom(targets: seq<nat>, i: nat)
    requires i < |targets|
    ensures Targeted(targets, i, targets[i])
    ensures forall p :: Targeted(targets, i + 1, p) ==> Targeted(targets, i, p)
  {
    forall p | Targeted(targets, i + 1, p)
      ensures Targeted(targets, i, p)
    {
      var k :| i + 1 <= k < |targets| && targets[k] == p;
      assert i <= k;
    }
  }

  /** `mutate(selectElements)`: a fresh sample of the selection is mutated.
      A member changes only if the sample drew its position, and its clue
      grid never changes. */
  function MutationStep(pop: Population, sel: seq<nat>, count: Draw, elems: nat -> Draw,
                        rows: nat -> Draw, orders: nat -> seq<int>): (next: Population)
    requires ValidPopulation(pop) && forall i :: 0 <= i < |sel| ==> sel[i] < |pop|
    requires ValidDraw(count) && forall k: nat :: ValidDraw(elems(k))
    requires forall k: nat :: ValidDraw(rows(k)) && IsOrdering(orders(k), 1, 9)
    ensures |next| == |pop| && ValidPopulation(next)
    ensures forall p :: 0 <= p < |pop| ==> next[p].clues == pop[p].clues
    ensures forall p :: 0 <= p < |pop| && next[p] != pop[p] ==> p in sel
    ensures AllReshuffled(pop, next)
  {
    var targets := Sample(sel, count, elems);
    assert forall k :: 0 <= k < |targets| ==> targets[k] in sel;
    MutateTargets(pop, targets, rows, orders, 0)
  }

  // ---------------------------------------------------------------------------
  // purge
  // ---------------------------------------------------------------------------

  const IntMin := -0x8000_0000
  const IntRange := 0x1_0000_0000

  /** A mathematical integer reduced to Java's 32-bit `int`, as `IntStream.sum`
      accumulates. */
  function Wrap32(x: int): (w: int)
    ensures IntMin <= w < -IntMin
    ensures (x - w) % IntRange == 0
    ensures IntMin <= x < -IntMin ==> w == x
  {
    (x - IntMin) % IntRange + IntMin
  }

  /** Positions `from` .. |fs|-1 that survive when the first `budget` of them
      whose fitness is below `avg` are removed, ascending. This is
      `filter(score < avg).limit(budget)` followed by `removeAll`, with
      population references pairwise distinct. */
  function Survivors(fs: seq<int>, avg: int, budget: nat, from: nat): (ks: seq<nat>)
    requires from <= |fs|
    ensures forall i :: 0 <= i < |ks| ==> from <= ks[i] < |fs|
    ensures forall i, j :: 0 <= i < j < |ks| ==> ks[i] < ks[j]
    ensures |ks| <= |fs| - from <= |ks| + budget
    ensures forall p :: from <= p < |fs| && p !in ks ==> fs[p] < avg
    ensures forall p :: from <= p < |fs| && fs[p] >= avg ==> p in ks
    decreases |fs| - from
  {
    if from == |fs| then []
    else if fs[from] < avg && budget > 0 then Survivors(fs, avg, budget - 1, from + 1)
    else [from] + Survivors(fs, avg, budget, from + 1)
  }

  /** The removal takes the FIRST below-average positions: a removed position
      has every earlier below-average position removed too, and when fewer
      than `budget` were removed, all of them were. */
  lemma {:induction false} SurvivorsRemoveFirst(fs: seq<int>, avg: int, budget: nat, from: nat, p: nat, q: nat)
    requires from <= q < p < |fs| && fs[q] < avg
    requires p !in Survivors(fs, avg, budget, from)
    ensures q !in Survivors(fs, avg, budget, from)
    decreases |fs| - from
  {
    var ks := Survivors(fs, avg, budget, from);
    if from < q {
      if fs[from] < avg && budget > 0 {
        SurvivorsRemoveFirst(fs, avg, budget - 1, from + 1, p, q);
      } else {
        assert ks == [from] + Survivors(fs, avg, budget, from + 1);
        SurvivorsRemoveFirst(fs, avg, budget, from + 1, p, q);
      }
    } else if budget == 0 {
      SurvivorsNoBudget(fs, avg, from);
    }
  }

  /** With no budget, every position survives. */
  lemma {:induction false} SurvivorsNoBudget(fs: seq<int>, avg: int, from: nat)
    requires from <= |fs|
    ensures forall p :: from <= p < |fs| ==> p in Survivors(fs, avg, 0, from)
    decreases |fs| - from
  {
    if from < |fs| {
      SurvivorsNoBudget(fs, avg, from + 1);
    }
  }

  lemma {:induction false} SurvivorsAllBelowRemoved(fs: seq<int>, avg: int, budget: nat, from: nat)
    requires from <= |fs|
    requires |fs| - from - |Survivors(fs, avg, budget, from)| < budget
    ensures forall p :: from <= p < |fs| && fs[p] < avg ==> p !in Survivors(fs, avg, budget, from)
    decreases |fs| - from
  {
    if from < |fs| {
      if fs[from] < avg && budget > 0 {
        SurvivorsAllBelowRemoved(fs, avg, budget - 1, from + 1);
      } else {
        var rest := Survivors(fs, avg, budget, from + 1);
        assert Survivors(fs, avg, budget, from) == [from] + rest;
        SurvivorsAllBelowRemoved(fs, avg, budget, from + 1);
      }
    }
  }

  /** The members at the surviving positions, in their original order. */
  function Select(pop: Population, ks: seq<nat>): (kept: Population)
    requires forall i :: 0 <= i < |ks| ==> ks[i] < |pop|
    ensures |kept| == |ks| && forall i :: 0 <= i < |ks| ==> kept[i] == pop[ks[i]]
  {
    seq(|ks|, i requires 0 <= i < |ks| => pop[ks[i]])
  }

  /** The purge of `pop` against the average `avg`: at most `limit` members,
      the first below-average ones, leave. */
  function PurgeAgainst(pop: Population, avg: int, limit: nat): (kept: Population)
    requires ValidPopulation(pop) && limit <= |pop|
    ensures |pop| - limit <= |kept| <= |pop| && ValidPopulation(kept)
  {
    var ks := Survivors(Fitnesses(pop), avg, limit, 0);
    Select(pop, ks)
  }

  /** `(long) (Math.random() * (size / 2))`: the most members a purge may remove. */
  function PurgeLimit(size: nat, limitDraw: Draw): (limit: nat)
    requires ValidDraw(limitDraw)
    ensures size >= 2 ==> limit < size / 2
    ensures size < 2 ==> limit == 0
  {
    Pick(limitDraw, size / 2)
  }

  /** `purge()` as written: the fitness sum is accumulated in a Java `int`,
      so on a large, low-scoring population it wraps around. */
  function PurgeAsWritten(pop: Population, limitDraw: Draw): (kept: Population)
    requires |pop| > 0 && ValidPopulation(pop) && ValidDraw(limitDraw)
    ensures 0 < |kept| <= |pop| && ValidPopulation(kept)
    ensures |pop| - PurgeLimit(|pop|, limitDraw) <= |kept|
  {
    PurgeAgainst(pop, JavaDiv(Wrap32(Sum(Fitnesses(pop))), |pop|), PurgeLimit(|pop|, limitDraw))
  }

  /** `purge()` with the fitness sum taken without overflow. */
  function Purge(pop: Population, limitDraw: Draw): (kept: Population)
    requires |pop| > 0 && ValidPopulation(pop) && ValidDraw(limitDraw)
    ensures 0 < |kept| <= |pop| && ValidPopulation(kept)
    ensures |pop| - PurgeLimit(|pop|, limitDraw) <= |kept|
  {
    PurgeAgainst(pop, JavaDiv(Sum(Fitnesses(pop)), |pop|), PurgeLimit(|pop|, limitDraw))
  }

  /** A list of values none above `m` sums to at most `|xs| * m`. */
  lemma {:induction false} SumAtMost(xs: seq<int>, m: int)
    requires forall i :: 0 <= i < |xs| ==> xs[i] <= m
    ensures Sum(xs) <= |xs| * m
  {
    if |xs| > 0 {
      SumAtMost(xs[1..], m);
      assert |xs| * m == (|xs| - 1) * m + m;
    }
  }

  /** A member at least as fit as the average survives the purge. */
  lemma SurvivorAtLeastAverage(pop: Population, avg: int, limit: nat, p: nat) returns (i: nat)
    requires ValidPopulation(pop) && limit <= |pop| && p < |pop| && Score(pop[p]) >= avg
    ensures i < |PurgeAgainst(pop, avg, limit)| && PurgeAgainst(pop, avg, limit)[i] == pop[p]
  {
    var ks := Survivors(Fitnesses(pop), avg, limit, 0);
    assert p in ks;
    i :| 0 <= i < |ks| && ks[i] == p;
  }

  /** Every member after the purge was a member before it. */
  lemma SurvivorFromPopulation(pop: Population, avg: int, limit: nat, i: nat) returns (p: nat)
    requires ValidPopulation(pop) && limit <= |pop| && i < |PurgeAgainst(pop, avg, limit)|
    ensures p < |pop| && PurgeAgainst(pop, avg, limit)[i] == pop[p]
  {
    var ks := Survivors(Fitnesses(pop), avg, limit, 0);
    p := ks[i];
  }

  /** Every member leaving a purge scores below the average, so a member of
      maximal fitness is never removed and the best score survives. */
  lemma PurgeKeepsBest(pop: Population, limitDraw: Draw)
    requires |pop| > 0 && ValidPopulation(pop) && ValidDraw(limitDraw)
    ensures Score(FindBest(Purge(pop, limitDraw))) == Score(FindBest(pop))
  {
    var fs := Fitnesses(pop);
    var b := BestIndex(fs);
    var avg := JavaDiv(Sum(fs), |pop|);
    BestAtLeastAverage(fs, b);
    var limit := PurgeLimit(|pop|, limitDraw);
    var kept := PurgeAgainst(pop, avg, limit);
    var i := SurvivorAtLeastAverage(pop, avg, limit, b);
    forall j | 0 <= j < |kept|
      ensures kept[j] in pop
    {
      var p := SurvivorFromPopulation(pop, avg, limit, j);
    }
    BestOfSubPopulation(pop, kept, i);
  }

  /** A sub-population that keeps a best member has the same best score. */
  lemma BestOfSubPopulation(pop: Population, sub: Population, i: nat)
    requires |pop| > 0 && ValidPopulation(pop) && ValidPopulation(sub)
    requires i < |sub| && sub[i] == FindBest(pop)
    requires forall j :: 0 <= j < |sub| ==> sub[j] in pop
    ensures Score(FindBest(sub)) == Score(FindBest(pop))
  {
    var best := FindBest(sub);
    assert Score(sub[i]) <= Score(best);
    var q :| 0 <= q < |pop| && pop[q] == best;
    assert Score(pop[q]) <= Score(FindBest(pop));
  }

  /** The highest fitness is at least the Java integer average. */
  lemma BestAtLeastAverage(fs: seq<int>, b: nat)
    requires |fs| > 0 && b < |fs|
    requires forall i :: 0 <= i < |fs| ==> fs[i] <= fs[b]
    ensures fs[b] >= JavaDiv(Sum(fs), |fs|)
  {
    SumAtMost(fs, fs[b]);
    AverageBelowMax(Sum(fs), |fs|, fs[b]);
  }

  /** Scores are never positive, so the Java `int` sum wraps only below
      `Integer.MIN_VALUE`; above it the purge as written is the purge. */
  lemma PurgeAsWrittenWithoutOverflow(pop: Population, limitDraw: Draw)
    requires |pop| > 0 && ValidPopulation(pop) && ValidDraw(limitDraw)
    requires Sum(Fitnesses(pop)) >= IntMin
    ensures PurgeAsWritten(pop, limitDraw) == Purge(pop, limitDraw)
  {
    SumZeroIff(Fitnesses(pop));
  }

  /** A purge against any average keeps a subsequence of the population:
      the survivors, in their original order, are the members at the
      ascending positions `ks`; every position missing from `ks` scored below
      the average, and at most `limit` positions are missing. */
  lemma PurgeAgainstSubsequence(pop: Population, avg: int, limit: nat) returns (ks: seq<nat>)
    requires ValidPopulation(pop) && limit <= |pop|
    ensures forall i, j :: 0 <= i < j < |ks| ==> ks[i] < ks[j]
    ensures |ks| == |PurgeAgainst(pop, avg, limit)|
    ensures forall i :: 0 <= i < |ks| ==> ks[i] < |pop| && PurgeAgainst(pop, avg, limit)[i] == pop[ks[i]]
    ensures forall p :: 0 <= p < |pop| && p !in ks ==> Score(pop[p]) < avg
    ensures |pop| - |ks| <= limit
  {
    ks := Survivors(Fitnesses(pop), avg, limit, 0);
  }

  /** `purge()` as written keeps a subsequence of the population: every
      removed member scored below the average computed with the wrapping
      `int` sum, and fewer than half the members leave. */
  lemma PurgeAsWrittenSubsequence(pop: Population, limitDraw: Draw) returns (ks: seq<nat>)
    requires |pop| > 0 && ValidPopulation(pop) && ValidDraw(limitDraw)
    ensures forall i, j :: 0 <= i < j < |ks| ==> ks[i] < ks[j]
    ensures |ks| == |PurgeAsWritten(pop, limitDraw)|
    ensures forall i :: 0 <= i < |ks| ==> ks[i] < |pop| && PurgeAsWritten(pop, limitDraw)[i] == pop[ks[i]]
    ensures forall p :: 0 <= p < |pop| && p !in ks ==> Score(pop[p]) < JavaDiv(Wrap32(Sum(Fitnesses(pop))), |pop|)
    ensures |pop| - |ks| <= PurgeLimit(|pop|, limitDraw)
    ensures |pop| >= 2 ==> |pop| - |ks| < |pop| / 2
    ensures |pop| < 2 ==> |ks| == |pop|
  {
    ks := PurgeAgainstSubsequence(pop, JavaDiv(Wrap32(Sum(Fitnesses(pop))), |pop|), PurgeLimit(|pop|, limitDraw));
  }

  /** The corrected purge keeps a subsequence of the population: every
      removed member scored below the exact truncated average, and fewer than
      half the members leave. */
  lemma PurgeSubsequence(pop: Population, limitDraw: Draw) returns (ks: seq<nat>)
    requires |pop| > 0 && ValidPopulation(pop) && ValidDraw(limitDraw)
    ensures forall i, j :: 0 <= i < j < |ks| ==> ks[i] < ks[j]
    ensures |ks| == |Purge(pop, limitDraw)|
    ensures forall i :: 0 <= i < |ks| ==> ks[i] < |pop| && Purge(pop, limitDraw)[i] == pop[ks[i]]
    ensures forall p :: 0 <= p < |pop| && p !in ks ==> Score(pop[p]) < JavaDiv(Sum(Fitnesses(pop)), |pop|)
    ensures |pop| - |ks| <= PurgeLimit(|pop|, limitDraw)
    ensures |pop| >= 2 ==> |pop| - |ks| < |pop| / 2
    ensures |pop| < 2 ==> |ks| == |pop|
  {
    ks := PurgeAgainstSubsequence(pop, JavaDiv(Sum(Fitnesses(pop)), |pop|), PurgeLimit(|pop|, limitDraw));
  }

  /** A purge allowed to remove nobody keeps the population as it is. */
  lemma {:induction false} PurgeAgainstNoLimit(pop: Population, avg: int)
    requires ValidPopulation(pop)
    ensures PurgeAgainst(pop, avg, 0) == pop
  {
    var fs := Fitnesses(pop);
    var ks := Survivors(fs, avg, 0, 0);
    SurvivorsNoBudget(fs, avg, 0);
    forall p | 0 <= p < |pop|
      ensures ks[p] == p
    {
      SurvivorsNoBudgetIdentity(fs, avg, 0, p);
    }
  }

  /** With no budget, the survivors from `from` on are `from, from + 1, ...`. */
  lemma {:induction false} SurvivorsNoBudgetIdentity(fs: seq<int>, avg: int, from: nat, p: nat)
    requires from <= p < |fs|
    ensures |Survivors(fs, avg, 0, from)| == |fs| - from
    ensures Survivors(fs, avg, 0, from)[p - from] == p
    decreases |fs| - from
  {
    if from < p {
      SurvivorsNoBudgetIdentity(fs, avg, from + 1, p);
    } else if from + 1 < |fs| {
      SurvivorsNoBudgetIdentity(fs, avg, from + 1, from + 1);
    }
  }

  /** A population of fewer than two members is left alone by both purges. */
  lemma PurgeSmall(pop: Population, limitDraw: Draw)
    requires |pop| == 1 && ValidPopulation(pop) && ValidDraw(limitDraw)
    ensures Purge(pop, limitDraw) == pop
    ensures PurgeAsWritten(pop, limitDraw) == pop
  {
    PurgeAgainstNoLimit(pop, JavaDiv(Sum(Fitnesses(pop)), |pop|));
    PurgeAgainstNoLimit(pop, JavaDiv(Wrap32(Sum(Fitnesses(pop))), |pop|));
  }

  // ---------------------------------------------------------------------------
  // run
  // ---------------------------------------------------------------------------

  /** The draws of one generation: the selection sample, the coin of each
      `probabilityToHappen` call with the draws of the step it guards. */
  datatype Generation = Generation(
    selectCount: Draw, selectElems: nat -> Draw,
    crossover: bool, roundCount: Draw, rounds: nat -> Round,
    mutation: bool, mutateCount: Draw, mutateElems: nat -> Draw, mutateRows: nat -> Draw, mutateOrders: nat -> seq<int>,
    purge: bool, purgeLimit: Draw)

  ghost predicate ValidGeneration(g: Generation) {
    && ValidDraw(g.selectCount) && (forall k: nat :: ValidDraw(g.selectElems(k)))
    && ValidDraw(g.roundCount) && (forall k: nat :: ValidRound(g.rounds(k)))
    && ValidDraw(g.mutateCount) && (forall k: nat :: ValidDraw(g.mutateElems(k)))
    && (forall k: nat :: ValidDraw(g.mutateRows(k)) && IsOrdering(g.mutateOrders(k), 1, 9))
    && ValidDraw(g.purgeLimit)
  }

  /** A purge only removes members, so a clue grid shared by all members stays shared. */
  lemma PurgeAgainstKeepsClues(pop: Population, avg: int, limit: nat, c: seq<seq<int>>)
    requires ValidPopulation(pop) && limit <= |pop|
    ensures SameClues(pop, c) ==> SameClues(PurgeAgainst(pop, avg, limit), c)
  {
    var kept := PurgeAgainst(pop, avg, limit);
    forall i | 0 <= i < |kept|
      ensures SameClues(pop, c) ==> kept[i].clues == c
    {
      var p := SurvivorFromPopulation(pop, avg, limit, i);
    }
  }

  /** `purge()` as written keeps a clue grid shared by all members. */
  lemma PurgeAsWrittenKeepsClues(pop: Population, limitDraw: Draw, c: seq<seq<int>>)
    requires |pop| > 0 && ValidPopulation(pop) && ValidDraw(limitDraw)
    ensures SameClues(pop, c) ==> SameClues(PurgeAsWritten(pop, limitDraw), c)
  {
    PurgeAgainstKeepsClues(pop, JavaDiv(Wrap32(Sum(Fitnesses(pop))), |pop|), PurgeLimit(|pop|, limitDraw), c);
  }

  /** The corrected purge keeps a clue grid shared by all members. */
  lemma PurgeKeepsClues(pop: Population, limitDraw: Draw, c: seq<seq<int>>)
    requires |pop| > 0 && ValidPopulation(pop) && ValidDraw(limitDraw)
    ensures SameClues(pop, c) ==> SameClues(Purge(pop, limitDraw), c)
  {
    PurgeAgainstKeepsClues(pop, JavaDiv(Sum(Fitnesses(pop)), |pop|), PurgeLimit(|pop|, limitDraw), c);
  }

  /** The crossover phase of a generation: `crossover(selectElements)` when its coin allows. */
  function CrossoverPhase(pop: Population, sel: seq<nat>, g: Generation): (next: Option<Population>)
    requires |pop| > 0 && ValidPopulation(pop) && ValidGeneration(g)
    requires forall i :: 0 <= i < |sel| ==> sel[i] < |pop|
    ensures next.Some? ==> |next.value| >= |pop| && next.value[0] == pop[0] && ValidPopulation(next.value)
    ensures next.Some? ==> SameClues(pop, pop[0].clues) ==> SameClues(next.value, pop[0].clues)
  {
    if g.crossover then
      CrossoverKeepsClues(pop, sel, g.roundCount, g.rounds, pop[0].clues);
      var next := CrossoverStep(pop, sel, g.roundCount, g.rounds);
      assert next.Some? ==> next.value[0] == next.value[..|pop|][0];
      next
    else Some(pop)
  }

  /** The mutation phase of a generation: `mutate(selectElements)` when its coin allows. */
  function MutationPhase(pop: Population, sel: seq<nat>, g: Generation): (next: Population)
    requires ValidPopulation(pop) && ValidGeneration(g)
    requires forall i :: 0 <= i < |sel| ==> sel[i] < |pop|
    ensures |next| == |pop| && ValidPopulation(next)
    ensures forall p :: 0 <= p < |pop| ==> next[p].clues == pop[p].clues
    ensures AllReshuffled(pop, next)
  {
    if g.mutation then MutationStep(pop, sel, g.mutateCount, g.mutateElems, g.mutateRows, g.mutateOrders)
    else
      AllReshuffledRefl(pop);
      pop
  }

  /** The purge phase of a generation: `purge()`, as written with the
      wrapping `int` sum, when its coin allows. */
  function PurgePhase(pop: Population, g: Generation): (next: Population)
    requires |pop| > 0 && ValidPopulation(pop) && ValidGeneration(g)
    ensures |next| > 0 && ValidPopulation(next)
    ensures SameClues(pop, pop[0].clues) ==> SameClues(next, pop[0].clues)
  {
    if g.purge then
      PurgeAsWrittenKeepsClues(pop, g.purgeLimit, pop[0].clues);
      PurgeAsWritten(pop, g.purgeLimit)
    else pop
  }

  /** One iteration of the loop of `run` after the best-score bookkeeping:
      selection, then crossover, mutation and purge as their coins allow.
      None when the crossover's inner loop does not finish within its draws.
      The population stays non-empty and every member keeps the clue grid. */
  function Step(pop: Population, g: Generation): (next: Option<Population>)
    requires |pop| > 0 && ValidPopulation(pop) && ValidGeneration(g)
    ensures next.Some? ==> |next.value| > 0 && ValidPopulation(next.value)
    ensures next.Some? ==> SameClues(pop, pop[0].clues) ==> SameClues(next.value, pop[0].clues)
  {
    var sel := Selection(pop, g.selectCount, g.selectElems);
    match CrossoverPhase(pop, sel, g)
    case None => None
    case Some(p1) =>
      var p2 := MutationPhase(p1, sel, g);
      assert SameClues(p1, p1[0].clues) ==> SameClues(p2, p2[0].clues) && p2[0].clues == p1[0].clues;
      Some(PurgePhase(p2, g))
  }

  lemma StepKeepsFirstClues(pop: Population, g: Generation)
    requires |pop| > 0 && ValidPopulation(pop) && ValidGeneration(g)
    ensures Step(pop, g).Some? && SameClues(pop, pop[0].clues) ==> Step(pop, g).value[0].clues == pop[0].clues
  {
  }

  datatype Outcome = Solved(best: Sudoku, globalMax: int) | Unfinished(pop: Population, globalMax: int)

  /** The loop of `run` entered with population `pop` and the tracked best
      score `globalMax`, over the draws `gens`. `Solved` when the loop test
      finds the goal; `Unfinished` when the draws run out first, which covers
      a run that does not end. */
  function RunFrom(pop: Population, goal: int, globalMax: int, gens: seq<Generation>): (out: Outcome)
    requires |pop| > 0 && ValidPopulation(pop)
    requires forall k :: 0 <= k < |gens| ==> ValidGeneration(gens[k])
    ensures out.globalMax >= globalMax
    ensures out.Solved? ==> WellFormed(out.best) && Score(out.best) == goal
    ensures out.Unfinished? ==> |out.pop| > 0 && ValidPopulation(out.pop)
    ensures SameClues(pop, pop[0].clues) ==>
              (out.Solved? ==> out.best.clues == pop[0].clues) && (out.Unfinished? ==> SameClues(out.pop, pop[0].clues))
    decreases |gens|, 1
  {
    var best := FindBest(pop);
    if Score(best) == goal then Solved(best, globalMax)
    else Advance(pop, goal, if Score(best) > globalMax then Score(best) else globalMax, gens)
  }

  /** The body of the loop of `run` once the goal test has failed and
      `globalMax` has been updated: one generation, then the loop again. */
  function Advance(pop: Population, goal: int, globalMax: int, gens: seq<Generation>): (out: Outcome)
    requires |pop| > 0 && ValidPopulation(pop)
    requires forall k :: 0 <= k < |gens| ==> ValidGeneration(gens[k])
    ensures out.globalMax >= globalMax
    ensures out.Solved? ==> WellFormed(out.best) && Score(out.best) == goal
    ensures out.Unfinished? ==> |out.pop| > 0 && ValidPopulation(out.pop)
    ensures SameClues(pop, pop[0].clues) ==>
              (out.Solved? ==> out.best.clues == pop[0].clues) && (out.Unfinished? ==> SameClues(out.pop, pop[0].clues))
    decreases |gens|, 0
  {
    if |gens| == 0 then Unfinished(pop, globalMax)
    else
      assert ValidGeneration(gens[0]);
      StepKeepsFirstClues(pop, gens[0]);
      match Step(pop, gens[0])
      case None => Unfinished(pop, globalMax)
      case Some(next) => RunFrom(next, goal, globalMax, gens[1..])
  }

  /** `run(goalScore)`: if it returns, it returns a member scoring exactly the
      goal, and the tracked best never falls below the initial best. */
  function Run(pop: Population, goal: int, gens: seq<Generation>): (out: Outcome)
    requires |pop| > 0 && ValidPopulation(pop)
    requires forall k :: 0 <= k < |gens| ==> ValidGeneration(gens[k])
    ensures out.Solved? ==> WellFormed(out.best) && Score(out.best) == goal
    ensures out.globalMax >= Score(FindBest(pop))
    ensures SameClues(pop, pop[0].clues) && out.Solved? ==> out.best.clues == pop[0].clues
  {
    RunFrom(pop, goal, Score(FindBest(pop)), gens)
  }
}
