/** Idioms of the Java source that Dafny does not give for free: a
    `Math.random()` draw turned into an index, Java's truncating `int`
    division, and the outcome of a shuffle. */
module Draws {

  /** One `Math.random()` draw, seen through the only use the source makes of
      it, `(int) (Math.random() * n)`: for every size `n` the index it selects.
      For a fixed draw `r` in [0, 1) the map `n -> floor(r * n)` is one such
      function; any function choosing an index below every positive size is
      admitted. */
  type Draw = nat -> nat

  ghost predicate ValidDraw(f: Draw) {
    forall n: nat :: n > 0 ==> f(n) < n
  }

  /** `(int) (Math.random() * n)`: an index below `n`, or 0 when `n` is 0. */
  function Pick(f: Draw, n: nat): (k: nat)
    requires ValidDraw(f)
    ensures n == 0 ==> k == 0
    ensures n > 0 ==> k < n
  {
    if n == 0 then 0 else f(n)
  }

  /** Java's `a / b` on `int` with a positive divisor: the quotient truncated toward zero. */
  function JavaDiv(a: int, b: int): (q: int)
    requires b > 0
    ensures a >= 0 ==> q * b <= a < q * b + b
    ensures a < 0 ==> q * b - b < a <= q * b
  {
    if a >= 0 then a / b else -((-a) / b)
  }

  /** A bound every element meets also bounds the truncated average of `n` elements. */
  lemma AverageBelowMax(sum: int, n: int, m: int)
    requires n > 0 && sum <= n * m
    ensures JavaDiv(sum, n) <= m
  {
    var q := JavaDiv(sum, n);
    if sum >= 0 {
      assert q * n <= m * n;
      CancelFactor(q, m, n);
    } else {
      assert (q - 1) * n <= m * n;
      CancelFactor(q - 1, m, n);
    }
  }

  lemma CancelFactor(a: int, b: int, n: int)
    requires n > 0 && a * n <= b * n
    ensures a <= b
  {
  }

  /** `p` lists each of the `n` values `lo`, ..., `lo + n - 1` exactly once: the
      outcome of `Collections.shuffle` on that range. */
  predicate IsOrdering(p: seq<int>, lo: int, n: nat) {
    && |p| == n
    && (forall i :: 0 <= i < n ==> lo <= p[i] < lo + n)
    && (forall i, j :: 0 <= i < j < n ==> p[i] != p[j])
    && (forall v :: lo <= v < lo + n ==> v in p)
  }
}
