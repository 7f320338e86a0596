/**
 Finite sums over an enumeration of keys, with the handful of facts the
 PageRank proofs need: sums are additive, affine maps pass through them,
 an indicator of a set sums to the set's size, non-negative terms are
 bounded by their sum, and a double sum may be taken in either order. Real
 numbers stand for the source's floats, so every equality here is exact.
 */
module Sums {

  /** True when no element of `xs` occurs twice. */
  predicate Distinct<T(==)>(xs: seq<T>) {
    forall i, j :: 0 <= i < j < |xs| ==> xs[i] != xs[j]
  }

  /** The elements of `xs`, as a set. */
  function Elements<T>(xs: seq<T>): set<T> {
    set x | x in xs
  }

  /** The sum of `f` over the first n elements of `xs`, accumulated from the front as a loop does. */
  function SumTo<T>(xs: seq<T>, f: T -> real, n: nat): real
    requires n <= |xs|
  {
    if n == 0 then 0.0 else SumTo(xs, f, n - 1) + f(xs[n - 1])
  }

  /** The sum of `f` over all of `xs`. */
  function Sum<T>(xs: seq<T>, f: T -> real): real {
    SumTo(xs, f, |xs|)
  }

  /** The entry of `m` at `k`, or 0 when `k` is not a key. */
  function Get<T>(m: map<T, real>, k: T): real {
    if k in m then m[k] else 0.0
  }

  /** `m` read as a function (0 outside its keys). */
  function ValueOf<T>(m: map<T, real>): T -> real {
    k => Get(m, k)
  }

  /** The total mass of `m` over the keys `keys`. */
  function Mass<T>(keys: seq<T>, m: map<T, real>): real {
    Sum(keys, ValueOf(m))
  }

  /** Sums are additive: if h is f + g on `xs`, its sum is the sum of theirs. */
  lemma {:induction false} SumAdd<T>(xs: seq<T>, f: T -> real, g: T -> real, h: T -> real, n: nat)
    requires n <= |xs|
    requires forall i :: 0 <= i < |xs| ==> h(xs[i]) == f(xs[i]) + g(xs[i])
    ensures SumTo(xs, h, n) == SumTo(xs, f, n) + SumTo(xs, g, n)
  {
    if n > 0 {
      SumAdd(xs, f, g, h, n - 1);
    }
  }

  /** f is the constant a at every element of `xs`. */
  ghost predicate ConstantOn<T>(xs: seq<T>, f: T -> real, a: real) {
    forall i :: 0 <= i < |xs| ==> f(xs[i]) == a
  }

  /** A constant a summed over n elements is n * a. */
  lemma {:induction false} SumConstant<T>(xs: seq<T>, f: T -> real, a: real, n: nat)
    requires n <= |xs|
    requires ConstantOn(xs, f, a)
    ensures SumTo(xs, f, n) == n as real * a
  {
    if n > 0 {
      SumConstant(xs, f, a, n - 1);
    }
  }

  /** g is a + b * f at every element of `xs`. */
  ghost predicate AffineOn<T>(xs: seq<T>, f: T -> real, g: T -> real, a: real, b: real) {
    forall i :: 0 <= i < |xs| ==> g(xs[i]) == a + b * f(xs[i])
  }

  /** A map that is a + b * g at every key is a + b * g along any enumeration of its keys. */
  lemma MapAffine<T>(keys: seq<T>, m: map<T, real>, g: T -> real, a: real, b: real)
    requires forall i :: 0 <= i < |keys| ==> keys[i] in m
    requires forall k :: k in m ==> m[k] == a + b * g(k)
    ensures AffineOn(keys, g, ValueOf(m), a, b)
  {
    forall i | 0 <= i < |keys| ensures ValueOf(m)(keys[i]) == a + b * g(keys[i]) {
      assert keys[i] in m;
    }
  }

  /** If g is a + b * f on `xs`, the sum of g over n elements is n * a + b * (the sum of f). */
  lemma {:induction false} SumAffine<T>(xs: seq<T>, f: T -> real, g: T -> real, a: real, b: real, n: nat)
    requires n <= |xs|
    requires AffineOn(xs, f, g, a, b)
    ensures SumTo(xs, g, n) == n as real * a + b * SumTo(xs, f, n)
  {
    if n > 0 {
      SumAffine(xs, f, g, a, b, n - 1);
      assert b * SumTo(xs, f, n) == b * SumTo(xs, f, n - 1) + b * f(xs[n - 1]);
    }
  }

  /** If m * g is f on `xs`, then m times the sum of g is the sum of f. */
  lemma {:induction false} SumScaled<T>(xs: seq<T>, f: T -> real, g: T -> real, m: real, n: nat)
    requires n <= |xs|
    requires forall i :: 0 <= i < |xs| ==> m * g(xs[i]) == f(xs[i])
    ensures m * SumTo(xs, g, n) == SumTo(xs, f, n)
  {
    if n > 0 {
      SumScaled(xs, f, g, m, n - 1);
      assert m * SumTo(xs, g, n) == m * SumTo(xs, g, n - 1) + m * g(xs[n - 1]);
    }
  }

  /** The number of the first n positions of `xs` whose element lies in L. */
  function CountTo<T>(xs: seq<T>, L: set<T>, n: nat): nat
    requires n <= |xs|
  {
    if n == 0 then 0 else CountTo(xs, L, n - 1) + if xs[n - 1] in L then 1 else 0
  }

  /** The elements at the first n positions of `xs`. */
  function FirstElements<T>(xs: seq<T>, n: nat): set<T>
    requires n <= |xs|
  {
    if n == 0 then {} else FirstElements(xs, n - 1) + {xs[n - 1]}
  }

  /** The elements at the first n positions are exactly the xs[i] with i < n. */
  lemma {:induction false} FirstElementsMembers<T>(xs: seq<T>, n: nat)
    requires n <= |xs|
    ensures forall i :: 0 <= i < n ==> xs[i] in FirstElements(xs, n)
    ensures forall y :: y in FirstElements(xs, n) ==> exists i :: 0 <= i < n && xs[i] == y
  {
    if n > 0 {
      FirstElementsMembers(xs, n - 1);
    }
  }

  /** On a distinct enumeration, the element at position n - 1 is not among those before it. */
  lemma LastIsNew<T>(xs: seq<T>, n: nat)
    requires 0 < n <= |xs| && Distinct(xs)
    ensures xs[n - 1] !in FirstElements(xs, n - 1)
  {
    FirstElementsMembers(xs, n - 1);
    forall i | 0 <= i < n - 1 ensures xs[i] != xs[n - 1] { }
  }

  /** On a distinct enumeration, counting positions in L counts the enumerated members of L. */
  lemma {:induction false} CountToCardinality<T>(xs: seq<T>, L: set<T>, n: nat)
    requires n <= |xs| && Distinct(xs)
    ensures CountTo(xs, L, n) == |L * FirstElements(xs, n)|
  {
    if n == 0 {
      assert L * FirstElements(xs, n) == {};
    } else {
      var x, before := xs[n - 1], FirstElements(xs, n - 1);
      CountToCardinality(xs, L, n - 1);
      LastIsNew(xs, n);
      if x in L {
        assert L * FirstElements(xs, n) == (L * before) + {x};
      } else {
        assert L * FirstElements(xs, n) == L * before;
      }
    }
  }

  /** On a distinct enumeration, counting the positions in a set of enumerated elements gives its size. */
  lemma CountInSubset<T>(xs: seq<T>, L: set<T>)
    requires Distinct(xs) && L <= Elements(xs)
    ensures CountTo(xs, L, |xs|) == |L|
  {
    CountToCardinality(xs, L, |xs|);
    FirstElementsMembers(xs, |xs|);
    assert L * FirstElements(xs, |xs|) == L by {
      forall x | x in L ensures x in FirstElements(xs, |xs|) {
        var i :| 0 <= i < |xs| && xs[i] == x;
      }
    }
  }

  /** The indicator function of L, scaled by b. */
  function Indicator<T>(L: set<T>, b: real): T -> real {
    x => if x in L then b else 0.0
  }

  /** The indicator of L scaled by b sums to b times the number of positions in L. */
  lemma {:induction false} SumIndicator<T>(xs: seq<T>, L: set<T>, b: real, n: nat)
    requires n <= |xs|
    ensures SumTo(xs, Indicator(L, b), n) == CountTo(xs, L, n) as real * b
  {
    if n > 0 {
      SumIndicator(xs, L, b, n - 1);
    }
  }

  /** A sum of non-negative terms is non-negative and bounds each of its terms. */
  lemma {:induction false} SumBoundsTerms<T>(xs: seq<T>, f: T -> real, n: nat)
    requires n <= |xs|
    requires forall i :: 0 <= i < |xs| ==> 0.0 <= f(xs[i])
    ensures 0.0 <= SumTo(xs, f, n)
    ensures forall i :: 0 <= i < n ==> f(xs[i]) <= SumTo(xs, f, n)
  {
    if n > 0 {
      SumBoundsTerms(xs, f, n - 1);
    }
  }

  /** Functions that agree on `xs` have the same sums over it. */
  lemma {:induction false} SumCongruence<T>(xs: seq<T>, f: T -> real, g: T -> real, n: nat)
    requires n <= |xs|
    requires forall i :: 0 <= i < |xs| ==> f(xs[i]) == g(xs[i])
    ensures SumTo(xs, f, n) == SumTo(xs, g, n)
  {
    if n > 0 {
      SumCongruence(xs, f, g, n - 1);
    }
  }

  /** The row of a two-place function F at `a`: the function b => F(a, b). */
  function Row<T>(F: (T, T) -> real, a: T): T -> real {
    b => F(a, b)
  }

  /** F with its two arguments exchanged. */
  function Flip<T>(F: (T, T) -> real): (T, T) -> real {
    (a, b) => F(b, a)
  }

  /** For each a, the sum of the row of F at a over the first n elements of `ys`. */
  function RowSums<T>(F: (T, T) -> real, ys: seq<T>, n: nat): T -> real
    requires n <= |ys|
  {
    a => SumTo(ys, Row(F, a), n)
  }

  /** For each a, the sum of the row of F at a over all of `ys`. */
  function RowTotals<T>(F: (T, T) -> real, ys: seq<T>): T -> real {
    RowSums(F, ys, |ys|)
  }

  /** Summing the rows of F over the first n elements of `ys` is summing the columns. */
  lemma {:induction false} SumSwapTo<T>(xs: seq<T>, ys: seq<T>, F: (T, T) -> real, n: nat)
    requires n <= |ys|
    ensures Sum(xs, RowSums(F, ys, n)) == SumTo(ys, RowTotals(Flip(F), xs), n)
  {
    if n == 0 {
      SumConstant(xs, RowSums(F, ys, n), 0.0, |xs|);
    } else {
      var y := ys[n - 1];
      SumSwapTo(xs, ys, F, n - 1);
      forall i | 0 <= i < |xs|
        ensures RowSums(F, ys, n)(xs[i]) == RowSums(F, ys, n - 1)(xs[i]) + Row(Flip(F), y)(xs[i])
      {
      }
      SumAdd(xs, RowSums(F, ys, n - 1), Row(Flip(F), y), RowSums(F, ys, n), |xs|);
    }
  }

  /** A double sum may be taken in either order. */
  lemma SumSwap<T>(xs: seq<T>, ys: seq<T>, F: (T, T) -> real)
    ensures Sum(xs, RowTotals(F, ys)) == Sum(ys, RowTotals(Flip(F), xs))
  {
    SumSwapTo(xs, ys, F, |ys|);
  }

  /** Non-negative entries of total mass 1 over an enumeration of their keys each lie in [0, 1]. */
  lemma MassBoundsEntries<T>(keys: seq<T>, m: map<T, real>)
    requires forall k :: k in m ==> k in keys && 0.0 <= m[k]
    requires Mass(keys, m) == 1.0
    ensures forall k :: k in m ==> 0.0 <= m[k] <= 1.0
  {
    forall i | 0 <= i < |keys| ensures 0.0 <= ValueOf(m)(keys[i]) {
    }
    SumBoundsTerms(keys, ValueOf(m), |keys|);
    forall k | k in m ensures m[k] <= 1.0 {
      var j :| 0 <= j < |keys| && keys[j] == k;
      assert ValueOf(m)(keys[j]) == m[k];
    }
  }

  /** 1/N on each of N keys sums to 1. */
  lemma UniformSumsToOne<T>(keys: seq<T>, f: T -> real)
    requires |keys| > 0
    requires ConstantOn(keys, f, 1.0 / |keys| as real)
    ensures Sum(keys, f) == 1.0
  {
    TimesQuotient(|keys| as real, 1.0);
    SumConstantToOne(keys, f, 1.0 / |keys| as real);
  }

  /** A constant u with N * u == 1 summed over N keys gives 1. */
  lemma SumConstantToOne<T>(keys: seq<T>, f: T -> real, u: real)
    requires |keys| as real * u == 1.0
    requires ConstantOn(keys, f, u)
    ensures Sum(keys, f) == 1.0
  {
    SumConstant(keys, f, u, |keys|);
  }

  // Arithmetic facts on reals used by the proofs.

  /** Quotients of equal numbers by equal counts are equal. */
  lemma SameQuotient(x: real, n: int, y: real, m: int)
    requires x == y && n == m && n != 0
    ensures x / n as real == y / m as real
  {
  }

  /** Multiplying a quotient by its non-zero divisor gives back the dividend. */
  lemma TimesQuotient(n: real, x: real)
    requires n != 0.0
    ensures n * (x / n) == x
  {
  }

  /** A quotient of a non-negative number by a positive one is non-negative, and positive when the dividend is. */
  lemma QuotientSign(x: real, n: real)
    requires 0.0 <= x && 0.0 < n
    ensures 0.0 <= x / n
    ensures 0.0 < x ==> 0.0 < x / n
  {
  }

  /** `count` parts x / k add up to x when `count` is k. */
  lemma CountedQuotients(s: real, count: int, k: int, x: real, u: real)
    requires count == k && k != 0 && u == x / k as real && s == count as real * u
    ensures s == x
  {
    CancelQuotient(s, k, x, u);
  }

  /** k equal parts x / k add up to x. */
  lemma CancelQuotient(s: real, k: int, x: real, u: real)
    requires k != 0 && u == x / k as real && s == k as real * u
    ensures s == x
  {
    TimesQuotient(k as real, x);
  }

  /** a + b * s with s replaced by an equal t. */
  lemma SameAffine(x: real, a: real, b: real, s: real, t: real)
    requires x == a + b * s && s == t
    ensures x == a + b * t
  {
  }

  /** A product of non-negative numbers is non-negative. */
  lemma ProductSign(a: real, b: real)
    requires 0.0 <= a && 0.0 <= b
    ensures 0.0 <= a * b
  {
  }

  /** A number that a non-zero m multiplies to m is 1. */
  lemma CancelFactor(m: real, x: real)
    requires m != 0.0 && m * x == m
    ensures x == 1.0
  {
    assert m * (x - 1.0) == 0.0;
  }
}
