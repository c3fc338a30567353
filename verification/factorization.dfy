/** The trial-division routines of `Factorizacion`: the gcd is the product of the
    candidate factors that divide both numbers, the lcm the product of the
    candidate factors that divide either. Candidates run 2, 3, 5, 7, 9, ... (odd
    numbers after 2, not only primes). Each routine is proved to agree with the
    Euclid-based reference definitions of `NumberTheory`. */
module Factorization {
  import opened NumberTheory

  /** No candidate in [2, p) divides both `x` and `y`. */
  ghost predicate NoCommonFactorBelow(x: int, y: int, p: int)
  {
    forall d :: 2 <= d < p ==> !(Divides(d, x) && Divides(d, y))
  }

  /** No candidate in [2, p) divides `x`. */
  ghost predicate NoFactorBelow(x: int, p: int)
  {
    forall d :: 2 <= d < p ==> !Divides(d, x)
  }

  /** The candidate sequence 2, 3, 5, 7, 9, ... */
  predicate IsCandidate(p: int)
  {
    p == 2 || (p >= 3 && p % 2 == 1)
  }

  /** The next candidate after `p`. */
  function NextCandidate(p: int): (q: int)
    requires IsCandidate(p)
    ensures IsCandidate(q) && q > p
  {
    if p == 2 then 3 else p + 2
  }

  /** `maxcd(a, b)`: trial division by the candidates while both remaining
      values are at least the candidate. For positive arguments the result is
      the gcd; when either argument is below 2 the loop never runs and the
      result is 1. */
  method MaxCommonDivisor(a: int, b: int) returns (r: int)
    ensures a >= 1 && b >= 1 ==> r == Gcd(a, b)
    ensures a >= 1 && b >= 1 ==> Divides(r, a) && Divides(r, b)
    ensures a >= 1 && b >= 1 ==> forall d :: Divides(d, a) && Divides(d, b) ==> Divides(d, r)
    ensures a < 2 || b < 2 ==> r == 1
  {
    var x, y := a, b;
    var p := 2;
    var factors: seq<int> := [];
    while x >= p && y >= p
      invariant IsCandidate(p)
      invariant a < 2 || b < 2 ==> x == a && y == b && factors == []
      invariant a >= 1 && b >= 1 ==> x >= 1 && y >= 1
      invariant a >= 1 && b >= 1 ==> Product(factors) * Gcd(x, y) == Gcd(a, b)
      invariant a >= 1 && b >= 1 ==> NoCommonFactorBelow(x, y, p)
      decreases x + y - p
    {
      if x % p == 0 && y % p == 0 {
        GcdDivideStep(x, y, p);
        ProductAppend(factors, p);
        Reassociate(Product(factors), p, Gcd(x / p, y / p));
        x, y := x / p, y / p;
        factors := factors + [p];
      } else {
        CommonAdvanceStep(x, y, p);
        p := NextCandidate(p);
      }
    }
    r := Product(factors);
    if a >= 1 && b >= 1 {
      GcdExhausted(x, y, p);
      GcdDivides(a, b);
      forall d | Divides(d, a) && Divides(d, b)
        ensures Divides(d, r)
      {
        GcdGreatest(a, b, d);
      }
    }
  }

  /** Dividing a common candidate out of both values moves it into the product. */
  lemma GcdDivideStep(x: int, y: int, p: int)
    requires x >= p && y >= p && p >= 2 && Divides(p, x) && Divides(p, y)
    requires NoCommonFactorBelow(x, y, p)
    ensures 1 <= x / p < x && 1 <= y / p < y
    ensures Gcd(x, y) == p * Gcd(x / p, y / p)
    ensures NoCommonFactorBelow(x / p, y / p, p)
  {
    var x', y' := x / p, y / p;
    QuotientFacts(x, p);
    QuotientFacts(y, p);
    GcdScale(p, x', y');
    forall d | 2 <= d < p && Divides(d, x') && Divides(d, y')
      ensures false
    {
      DividesTrans(d, x / p, x);
      DividesTrans(d, y / p, y);
    }
  }

  /** Dividing `x` by one of its divisors `p >= 2` gives a smaller positive
      cofactor, itself a divisor of `x`. */
  lemma QuotientFacts(x: int, p: int)
    requires x >= 1 && p >= 2 && Divides(p, x)
    ensures 1 <= x / p < x && p * (x / p) == x && Divides(x / p, x)
  {
    QuotientPositive(p, x);
    MultipleDivides(x / p, p);
    assert x / p * p == x;
  }

  /** Skipping a candidate that does not divide both keeps the invariant, and
      the even number skipped after an odd candidate cannot divide both either. */
  lemma CommonAdvanceStep(x: int, y: int, p: int)
    requires IsCandidate(p) && !(Divides(p, x) && Divides(p, y))
    requires NoCommonFactorBelow(x, y, p)
    ensures NoCommonFactorBelow(x, y, NextCandidate(p))
  {
    if p != 2 {
      forall d | 2 <= d < p + 2 && Divides(d, x) && Divides(d, y)
        ensures false
      {
        if d == p + 1 {
          MultipleDivides(2, (p + 1) / 2);
          DividesTrans(2, d, x);
          DividesTrans(2, d, y);
        }
      }
    }
  }

  /** When one value drops below the candidate, no common factor remains. */
  lemma GcdExhausted(x: int, y: int, p: int)
    requires x >= 1 && y >= 1 && (x < p || y < p)
    requires NoCommonFactorBelow(x, y, p)
    ensures Gcd(x, y) == 1
  {
    var g := Gcd(x, y);
    GcdDivides(x, y);
    DivisorBound(g, x);
    DivisorBound(g, y);
  }

  /** `mincm2(a, b)`: trial division by the candidates until both remaining
      values are 1, dividing out of each value the candidate when it divides it.
      The result is the lcm. A zero or negative argument never reaches 1, so the
      source loops forever on it: positivity is required. */
  method MinCommonMultiple2(a: int, b: int) returns (r: int)
    requires a > 0 && b > 0
    ensures r == Lcm(a, b)
    ensures r > 0 && Divides(a, r) && Divides(b, r)
    ensures forall m :: Divides(a, m) && Divides(b, m) ==> Divides(r, m)
  {
    var x, y := a, b;
    var p := 2;
    var factors: seq<int> := [];
    while !(x == 1 && y == 1)
      invariant IsCandidate(p) && x >= 1 && y >= 1
      invariant Product(factors) * Lcm(x, y) == Lcm(a, b)
      invariant NoFactorBelow(x, p) && NoFactorBelow(y, p)
      decreases x + y, x + y - p
    {
      CandidateBounded(x, y, p);
      if x % p == 0 || y % p == 0 {
        var x', y' := if x % p == 0 then x / p else x, if y % p == 0 then y / p else y;
        LcmDivideStep(x, y, p);
        ProductAppend(factors, p);
        Reassociate(Product(factors), p, Lcm(x', y'));
        x, y := x', y';
        factors := factors + [p];
      } else {
        NoFactorAdvanceStep(x, p);
        NoFactorAdvanceStep(y, p);
        p := NextCandidate(p);
      }
    }
    assert Gcd(1, 1) == 1;
    r := Product(factors);
    LcmIsLeast(a, b);
  }

  /** While some value exceeds 1 the candidate is no larger than it. */
  lemma CandidateBounded(x: int, y: int, p: int)
    requires x >= 1 && y >= 1 && !(x == 1 && y == 1)
    requires NoFactorBelow(x, p) && NoFactorBelow(y, p)
    ensures p <= x + y
  {
    if x >= 2 {
      assert Divides(x, x);
    } else {
      assert Divides(y, y);
    }
  }

  /** Dividing a candidate out of whichever values it divides moves it into the product. */
  lemma LcmDivideStep(x: int, y: int, p: int)
    requires x >= 1 && y >= 1 && p >= 2 && (Divides(p, x) || Divides(p, y))
    requires NoFactorBelow(x, p) && NoFactorBelow(y, p)
    ensures var x', y' := (if x % p == 0 then x / p else x), (if y % p == 0 then y / p else y);
      && x' >= 1 && y' >= 1 && x' + y' < x + y
      && Lcm(x, y) == p * Lcm(x', y')
      && NoFactorBelow(x', p) && NoFactorBelow(y', p)
  {
    var x', y' := (if x % p == 0 then x / p else x), (if y % p == 0 then y / p else y);
    DividedKeepsNoFactor(x, p);
    DividedKeepsNoFactor(y, p);
    if Divides(p, x) && Divides(p, y) {
      LcmScaleBoth(p, x', y');
    } else if Divides(p, x) {
      CoprimeFromNoSmallDivisor(p, y);
      LcmScaleLeft(p, x', y);
    } else {
      CoprimeFromNoSmallDivisor(p, x);
      LcmScaleRight(p, x, y');
    }
  }

  /** Dividing out a candidate that divides `x` keeps `x` free of smaller candidates. */
  lemma DividedKeepsNoFactor(x: int, p: int)
    requires x >= 1 && p >= 2 && NoFactorBelow(x, p)
    ensures var x' := if x % p == 0 then x / p else x;
      x' >= 1 && (x % p == 0 ==> x' < x && p * x' == x) && NoFactorBelow(x', p)
  {
    if x % p == 0 {
      QuotientFacts(x, p);
      forall d | 2 <= d < p && Divides(d, x / p)
        ensures false
      {
        DividesTrans(d, x / p, x);
      }
    }
  }

  /** Skipping a candidate that divides neither value keeps the invariant. */
  lemma NoFactorAdvanceStep(x: int, p: int)
    requires IsCandidate(p) && !Divides(p, x) && NoFactorBelow(x, p)
    ensures NoFactorBelow(x, NextCandidate(p))
  {
    if p != 2 {
      forall d | 2 <= d < p + 2 && Divides(d, x)
        ensures false
      {
        if d == p + 1 {
          MultipleDivides(2, (p + 1) / 2);
          DividesTrans(2, d, x);
        }
      }
    }
  }

  /** `mincm(...values)`: the left fold of `mincm2` from 1. It is the lcm of all
      the values, and the lcm of no values is 1. */
  method MinCommonMultiple(s: seq<int>) returns (r: int)
    requires forall i :: 0 <= i < |s| ==> s[i] > 0
    ensures r == LcmSeq(s)
    ensures |s| == 0 ==> r == 1
    ensures r > 0 && forall i :: 0 <= i < |s| ==> Divides(s[i], r)
    ensures forall m :: (forall i :: 0 <= i < |s| ==> Divides(s[i], m)) ==> Divides(r, m)
  {
    r := 1;
    var i := 0;
    while i < |s|
      invariant 0 <= i <= |s| && r > 0
      invariant LcmFold(r, s[i..]) == LcmSeq(s)
    {
      assert s[i..][1..] == s[i + 1..];
      r := MinCommonMultiple2(r, s[i]);
      i := i + 1;
    }
    assert s[|s|..] == [];
    LcmSeqIsLeast(s);
  }
}
