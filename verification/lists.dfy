/** The java.util list operations the chromosome relies on, over sequences of
    integers: `List.remove(Object)` (first occurrence only), a chain of such
    removals, and `stream().filter(other::contains)`. */
module Lists {

  /** Strictly ascending, hence without duplicates. */
  predicate Ascending(xs: seq<int>) {
    forall i, j :: 0 <= i < j < |xs| ==> xs[i] < xs[j]
  }

  predicate Distinct(xs: seq<int>) {
    forall i, j :: 0 <= i < j < |xs| ==> xs[i] != xs[j]
  }

  /** `IntStream.rangeClosed(1, 9)`: the nine digits in ascending order. */
  function Digits(): (ds: seq<int>)
    ensures |ds| == 9 && Ascending(ds)
    ensures forall d :: d in ds <==> 1 <= d <= 9
  {
    [1, 2, 3, 4, 5, 6, 7, 8, 9]
  }

  /** How many elements of `vals` are digits 1..9. */
  function DigitCount(vals: seq<int>): (n: nat)
    ensures n <= |vals|
  {
    if |vals| == 0 then 0
    else (if 1 <= vals[0] <= 9 then 1 else 0) + DigitCount(vals[1..])
  }

  /** `List.remove((Integer) v)`: drops the first occurrence of `v`, if any. */
  function RemoveFirst(xs: seq<int>, v: int): (r: seq<int>)
    ensures v in xs ==> multiset(r) == multiset(xs) - multiset{v}
    ensures v !in xs ==> r == xs
  {
    if |xs| == 0 then xs
    else
      assert xs == [xs[0]] + xs[1..];
      if xs[0] == v then xs[1..]
      else [xs[0]] + RemoveFirst(xs[1..], v)
  }

  /** On an ascending list, removal keeps the order and deletes exactly `v`. */
  lemma {:induction false} RemoveFirstAscending(xs: seq<int>, v: int)
    requires Ascending(xs)
    ensures Ascending(RemoveFirst(xs, v))
    ensures forall x :: x in RemoveFirst(xs, v) <==> x in xs && x != v
  {
    if |xs| > 0 {
      var tail := xs[1..];
      assert xs == [xs[0]] + tail;
      assert Ascending(tail) by {
        forall i, j | 0 <= i < j < |tail|
          ensures tail[i] < tail[j]
        {
          assert tail[i] == xs[i + 1] && tail[j] == xs[j + 1];
        }
      }
      assert forall i :: 0 <= i < |tail| ==> xs[0] < tail[i] by {
        forall i | 0 <= i < |tail|
          ensures xs[0] < tail[i]
        {
          assert tail[i] == xs[i + 1];
        }
      }
      if xs[0] != v {
        RemoveFirstAscending(tail, v);
        var r := RemoveFirst(tail, v);
        assert RemoveFirst(xs, v) == [xs[0]] + r;
        assert forall i :: 0 <= i < |r| ==> xs[0] < r[i] by {
          forall i | 0 <= i < |r|
            ensures xs[0] < r[i]
          {
            assert r[i] in r;
          }
        }
      }
    }
  }

  /** Removes each value of `vals`, in order, with `RemoveFirst`: the body of
      the `findUnfilledNumberIn...` loops and of the clue stream in `shuffleRow`. */
  function Strike(xs: seq<int>, vals: seq<int>): seq<int>
    decreases |vals|
  {
    if |vals| == 0 then xs else Strike(RemoveFirst(xs, vals[0]), vals[1..])
  }

  /** Striking from an ascending list leaves the ascending list of the values
      not struck, whatever junk `vals` contains. */
  lemma {:induction false} StrikeAscending(xs: seq<int>, vals: seq<int>)
    requires Ascending(xs)
    decreases |vals|
    ensures Ascending(Strike(xs, vals))
    ensures forall x :: x in Strike(xs, vals) <==> x in xs && x !in vals
  {
    if |vals| > 0 {
      var ys := RemoveFirst(xs, vals[0]);
      RemoveFirstAscending(xs, vals[0]);
      StrikeAscending(ys, vals[1..]);
      assert Strike(xs, vals) == Strike(ys, vals[1..]);
      forall x
        ensures x in vals <==> x == vals[0] || x in vals[1..]
      {
        assert vals == [vals[0]] + vals[1..];
      }
    }
  }

  /** Only values that are digits can remove anything from a list of digits. */
  lemma {:induction false} StrikeLength(xs: seq<int>, vals: seq<int>)
    requires forall x :: x in xs ==> 1 <= x <= 9
    ensures |Strike(xs, vals)| >= |xs| - DigitCount(vals)
    decreases |vals|
  {
    if |vals| > 0 {
      var ys := RemoveFirst(xs, vals[0]);
      if vals[0] in xs {
        assert |multiset(ys)| == |multiset(xs)| - 1;
        assert forall y :: y in ys ==> y in multiset(ys) ==> y in multiset(xs) && y in xs;
      }
      StrikeLength(ys, vals[1..]);
    }
  }

  /** Striking pairwise distinct values that all occur removes each exactly once. */
  lemma {:induction false} StrikeExact(xs: seq<int>, vals: seq<int>)
    requires Distinct(vals)
    requires forall v :: v in vals ==> v in xs
    ensures multiset(Strike(xs, vals)) + multiset(vals) == multiset(xs)
    decreases |vals|
  {
    if |vals| > 0 {
      var v := vals[0];
      var ys := RemoveFirst(xs, v);
      assert vals == [v] + vals[1..];
      forall w | w in vals[1..]
        ensures w in ys
      {
        assert w != v && w in xs;
        assert multiset(xs)[w] > 0;
        assert multiset(ys)[w] == multiset(xs)[w];
        assert w in multiset(ys);
      }
      assert Distinct(vals[1..]) by {
        forall i, j | 0 <= i < j < |vals[1..]|
          ensures vals[1..][i] != vals[1..][j]
        {
          assert vals[1..][i] == vals[i + 1] && vals[1..][j] == vals[j + 1];
        }
      }
      StrikeExact(ys, vals[1..]);
    }
  }

  /** `xs.stream().filter(ys::contains)`: the elements of `xs` that occur in `ys`, in order. */
  function Keep(xs: seq<int>, ys: seq<int>): (r: seq<int>)
    ensures forall x :: x in r <==> x in xs && x in ys
    ensures |r| <= |xs|
  {
    if |xs| == 0 then []
    else
      assert xs == [xs[0]] + xs[1..];
      (if xs[0] in ys then [xs[0]] else []) + Keep(xs[1..], ys)
  }

  /** Filtering by a list holding every element keeps the whole list. */
  lemma {:induction false} KeepAll(xs: seq<int>, ys: seq<int>)
    requires forall i :: 0 <= i < |xs| ==> xs[i] in ys
    ensures Keep(xs, ys) == xs
  {
    if |xs| > 0 {
      assert forall i :: 0 <= i < |xs[1..]| ==> xs[1..][i] == xs[i + 1];
      KeepAll(xs[1..], ys);
      assert Keep(xs, ys) == [xs[0]] + xs[1..];
    }
  }

  /** Filtering a list by itself, twice, gives it back. */
  lemma KeepSelf(xs: seq<int>)
    ensures Keep(Keep(xs, xs), xs) == xs
  {
    KeepAll(xs, xs);
  }

  /** Filtering keeps an ascending or duplicate-free list so. */
  lemma KeepSubsequence(xs: seq<int>, ys: seq<int>)
    ensures Ascending(xs) ==> Ascending(Keep(xs, ys))
    ensures Distinct(xs) ==> Distinct(Keep(xs, ys))
  {
    if Ascending(xs) {
      KeepAscending(xs, ys);
    }
    if Distinct(xs) {
      KeepDistinct(xs, ys);
    }
  }

  lemma {:induction false} KeepAscending(xs: seq<int>, ys: seq<int>)
    requires Ascending(xs)
    ensures Ascending(Keep(xs, ys))
  {
    if |xs| > 0 {
      assert Ascending(xs[1..]) by {
        forall i, j | 0 <= i < j < |xs[1..]|
          ensures xs[1..][i] < xs[1..][j]
        {
          assert xs[1..][i] == xs[i + 1] && xs[1..][j] == xs[j + 1];
        }
      }
      KeepAscending(xs[1..], ys);
      var r := Keep(xs[1..], ys);
      assert forall i :: 0 <= i < |r| ==> xs[0] < r[i] by {
        forall i | 0 <= i < |r|
          ensures xs[0] < r[i]
        {
          assert r[i] in r;
          var k :| 0 <= k < |xs[1..]| && xs[1..][k] == r[i];
          assert xs[k + 1] == r[i];
        }
      }
    }
  }

  lemma {:induction false} KeepDistinct(xs: seq<int>, ys: seq<int>)
    requires Distinct(xs)
    ensures Distinct(Keep(xs, ys))
  {
    if |xs| > 0 {
      assert Distinct(xs[1..]) by {
        forall i, j | 0 <= i < j < |xs[1..]|
          ensures xs[1..][i] != xs[1..][j]
        {
          assert xs[1..][i] == xs[i + 1] && xs[1..][j] == xs[j + 1];
        }
      }
      KeepDistinct(xs[1..], ys);
      assert forall i :: 0 < i < |xs| ==> xs[i] != xs[0];
      assert xs[0] !in xs[1..];
    }
  }

  /** A duplicate-free list holds each of its elements exactly once. */
  lemma {:induction false} DistinctMultiplicity(xs: seq<int>, x: int)
    requires Distinct(xs)
    ensures multiset(xs)[x] == if x in xs then 1 else 0
  {
    if |xs| > 0 {
      assert xs == [xs[0]] + xs[1..];
      assert forall i :: 0 < i < |xs| ==> xs[i] != xs[0];
      assert xs[0] !in xs[1..];
      assert Distinct(xs[1..]) by {
        forall i, j | 0 <= i < j < |xs[1..]|
          ensures xs[1..][i] != xs[1..][j]
        {
          assert xs[1..][i] == xs[i + 1] && xs[1..][j] == xs[j + 1];
        }
      }
      DistinctMultiplicity(xs[1..], x);
    }
  }

  /** Two duplicate-free lists with the same elements are permutations of each other. */
  lemma SameElementsPermutation(xs: seq<int>, ys: seq<int>)
    requires Distinct(xs) && Distinct(ys)
    requires forall x :: x in xs <==> x in ys
    ensures multiset(xs) == multiset(ys)
    ensures |xs| == |ys|
  {
    forall x
      ensures multiset(xs)[x] == multiset(ys)[x]
    {
      DistinctMultiplicity(xs, x);
      DistinctMultiplicity(ys, x);
    }
    assert multiset(xs) == multiset(ys);
    assert |xs| == |multiset(xs)|;
  }

  /** Two ascending lists with the same elements are equal. */
  lemma {:induction false} AscendingUnique(xs: seq<int>, ys: seq<int>)
    requires Ascending(xs) && Ascending(ys)
    requires forall x :: x in xs <==> x in ys
    ensures xs == ys
  {
    SameElementsPermutation(xs, ys);
    if |xs| > 0 {
      assert xs[0] == ys[0] by {
        assert xs[0] in xs && ys[0] in ys;
      }
      forall x
        ensures x in xs[1..] <==> x in ys[1..]
      {
        assert x in xs[1..] <==> x in xs && x != xs[0];
        assert x in ys[1..] <==> x in ys && x != ys[0];
      }
      AscendingUnique(xs[1..], ys[1..]);
      assert xs == [xs[0]] + xs[1..] && ys == [ys[0]] + ys[1..];
    }
  }
}
