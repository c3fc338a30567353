/** Exact integer number theory used by the fraction arithmetic: divisibility,
    Euclid's greatest common divisor and the least common multiple derived from
    it, together with the facts the reducer and the trial-division routines rely on. */
module NumberTheory {

  /** `d` is a positive divisor of `n`. */
  predicate Divides(d: int, n: int)
  {
    d > 0 && n % d == 0
  }

  /** Product of a sequence of factors, folded from the left starting at 1. */
  function Product(s: seq<int>): int
  {
    if |s| == 0 then 1 else Product(s[..|s| - 1]) * s[|s| - 1]
  }

  lemma ProductAppend(s: seq<int>, x: int)
    ensures Product(s + [x]) == Product(s) * x
  {
    assert (s + [x])[..|s|] == s;
  }

  // ---------------------------------------------------------------------------
  // Euclidean division facts

  /** Euclidean division is unique: any quotient/remainder pair is THE pair. */
  lemma DivModUnique(n: int, m: int, q: int, r: int)
    requires m > 0 && 0 <= r < m && n == q * m + r
    ensures n / m == q && n % m == r
  {
    var q', r' := n / m, n % m;
    assert (q - q') * m == r' - r;
    if q - q' >= 1 {
      assert (q - q') * m >= m by { MulMonotone(q - q' - 1, m); }
    } else if q - q' <= -1 {
      assert (q' - q) * m >= m by { MulMonotone(q' - q - 1, m); }
    }
  }

  lemma MulMonotone(k: int, m: int)
    requires k >= 0 && m > 0
    ensures (k + 1) * m >= m
  {
  }

  /** A multiple of `d` is divisible by `d`, with the obvious quotient. */
  lemma MultipleDivides(d: int, k: int)
    requires d > 0
    ensures Divides(d, d * k) && (d * k) / d == k
  {
    DivModUnique(d * k, d, k, 0);
  }

  /** A divisor splits its multiple exactly. */
  lemma DividesSplit(d: int, n: int)
    requires Divides(d, n)
    ensures n == d * (n / d)
  {
  }

  /** Divisibility is closed under integer linear combinations. */
  lemma DividesLinear(d: int, x: int, y: int, k: int)
    requires Divides(d, x) && Divides(d, y)
    ensures Divides(d, x + k * y)
  {
    var a, b := x / d, y / d;
    assert x + k * y == d * (a + k * b);
    MultipleDivides(d, a + k * b);
  }

  /** Divisibility is transitive. */
  lemma DividesTrans(a: int, b: int, c: int)
    requires Divides(a, b) && Divides(b, c)
    ensures Divides(a, c)
  {
    var i, j := b / a, c / b;
    assert c == a * (i * j);
    MultipleDivides(a, i * j);
  }

  /** A positive number's divisors are no larger than it. */
  lemma DivisorBound(d: int, n: int)
    requires Divides(d, n) && n > 0
    ensures d <= n
  {
    var k := n / d;
    QuotientPositive(d, n);
    MulMonotone(k - 1, d);
  }

  /** The quotient of a positive number by one of its divisors is positive. */
  lemma QuotientPositive(d: int, n: int)
    requires Divides(d, n) && n > 0
    ensures n / d > 0 && n == d * (n / d)
  {
  }

  /** Two positive numbers dividing each other are equal. */
  lemma DividesAntisymmetric(a: int, b: int)
    requires Divides(a, b) && Divides(b, a)
    ensures a == b
  {
    DivisorBound(a, b);
    DivisorBound(b, a);
  }

  /** Scaling numerator and divisor alike scales the remainder. */
  lemma ModScale(k: int, a: int, b: int)
    requires k > 0 && b > 0 && a >= 0
    ensures (k * a) % (k * b) == k * (a % b)
  {
    var q, r := a / b, a % b;
    assert k * a == q * (k * b) + k * r;
    assert 0 <= k * r < k * b by { MulStrict(k, r, b); }
    DivModUnique(k * a, k * b, q, k * r);
  }

  lemma MulStrict(k: int, r: int, b: int)
    requires k > 0 && 0 <= r < b
    ensures 0 <= k * r < k * b
  {
    assert k * b - k * r == k * (b - r);
    MulMonotone(k - 1, b - r);
  }

  // ---------------------------------------------------------------------------
  // Greatest common divisor

  /** Euclid's algorithm: the reference definition of the greatest common divisor. */
  function Gcd(a: nat, b: nat): nat
    decreases b
  {
    if b == 0 then a else Gcd(b, a % b)
  }

  /** The gcd divides both arguments, and it is positive unless both are zero. */
  lemma {:induction false} GcdDivides(a: nat, b: nat)
    requires a > 0 || b > 0
    ensures Gcd(a, b) > 0
    ensures Divides(Gcd(a, b), a) && Divides(Gcd(a, b), b)
    decreases b
  {
    if b != 0 {
      var g := Gcd(b, a % b);
      GcdDivides(b, a % b);
      assert a == a % b + (a / b) * b;
      DividesLinear(g, a % b, b, a / b);
    }
  }

  /** Every common divisor divides the gcd. */
  lemma {:induction false} GcdGreatest(a: nat, b: nat, d: int)
    requires Divides(d, a) && Divides(d, b)
    ensures Divides(d, Gcd(a, b))
    decreases b
  {
    if b != 0 {
      assert a % b == a + (-(a / b)) * b;
      DividesLinear(d, a, b, -(a / b));
      GcdGreatest(b, a % b, d);
    }
  }

  /** The gcd is symmetric. */
  lemma GcdCommutes(a: nat, b: nat)
    ensures Gcd(a, b) == Gcd(b, a)
  {
    if a == 0 && b == 0 {
    } else if a == 0 {
      assert Gcd(b, 0) == b;
      assert Gcd(0, b) == Gcd(b, 0);
    } else if b == 0 {
      assert Gcd(0, a) == Gcd(a, 0);
    } else {
      GcdDivides(a, b);
      GcdDivides(b, a);
      GcdGreatest(a, b, Gcd(b, a));
      GcdGreatest(b, a, Gcd(a, b));
      DividesAntisymmetric(Gcd(a, b), Gcd(b, a));
    }
  }

  /** The gcd is homogeneous: scaling both arguments scales the gcd. */
  lemma {:induction false} GcdScale(k: nat, a: nat, b: nat)
    requires k > 0
    ensures Gcd(k * a, k * b) == k * Gcd(a, b)
    decreases b
  {
    if b == 0 {
      assert k * b == 0;
    } else {
      assert k * b > 0;
      ModScale(k, a, b);
      GcdScale(k, b, a % b);
    }
  }

  /** Euclid's lemma: a divisor coprime to one factor of a product divides the other. */
  lemma CoprimeDividesFactor(c: nat, a: nat, b: int)
    requires c > 0 && Gcd(a, c) == 1 && Divides(c, a * b)
    ensures Divides(c, b)
  {
    if b < 0 {
      var n := a * b;
      NegateProduct(a, b);
      DividesNegate(c, n);
      CoprimeDividesNat(c, a, -b);
      DividesNegate(c, -b);
    } else {
      CoprimeDividesNat(c, a, b);
    }
  }

  lemma CoprimeDividesNat(c: nat, a: nat, b: nat)
    requires c > 0 && Gcd(a, c) == 1 && Divides(c, a * b)
    ensures Divides(c, b)
  {
    if b > 0 {
      var ba, bc := b * a, b * c;
      GcdScale(b, a, c);
      assert Gcd(ba, bc) == b;
      assert Divides(c, ba) by { assert ba == a * b; }
      assert Divides(c, bc) by { MultipleDivides(c, b); assert bc == c * b; }
      GcdGreatest(ba, bc, c);
    }
  }

  lemma NegateProduct(a: int, b: int)
    ensures a * -b == -(a * b)
  {
  }

  lemma DividesNegate(d: int, n: int)
    requires Divides(d, n)
    ensures Divides(d, -n)
  {
    DividesLinear(d, 0, n, -1);
  }

  /** A number coprime to every divisor of `p` below `p`, and not divisible
      by `p` itself, is coprime to `p`. */
  lemma CoprimeFromNoSmallDivisor(p: nat, y: nat)
    requires p >= 2 && y > 0 && !Divides(p, y)
    requires forall d :: 2 <= d < p ==> !Divides(d, y)
    ensures Gcd(p, y) == 1
  {
    var g := Gcd(p, y);
    GcdDivides(p, y);
    DivisorBound(g, p);
  }

  // ---------------------------------------------------------------------------
  // Least common multiple

  /** The least common multiple of two positive numbers, from the gcd. */
  function Lcm(a: int, b: int): int
    requires a > 0 && b > 0
  {
    GcdDivides(a, b);
    (a / Gcd(a, b)) * b
  }

  /** `Lcm` is a positive common multiple dividing every common multiple. */
  lemma LcmIsLeast(a: int, b: int)
    requires a > 0 && b > 0
    ensures Lcm(a, b) > 0 && Divides(a, Lcm(a, b)) && Divides(b, Lcm(a, b))
    ensures forall m :: Divides(a, m) && Divides(b, m) ==> Divides(Lcm(a, b), m)
  {
    var g := Gcd(a, b);
    GcdDivides(a, b);
    var u, v := a / g, b / g;
    QuotientPositive(g, a);
    QuotientPositive(g, b);
    LcmByCofactor(a, b, g, u);
    CofactorsCoprime(a, b, g, u, v);
    LcmIsCommonMultiple(a, b, g, u, v, Lcm(a, b));
    forall m | Divides(a, m) && Divides(b, m)
      ensures Divides(Lcm(a, b), m)
    {
      LcmDividesCommonMultiple(g, u, v, m);
    }
  }

  /** Dividing both arguments by their gcd leaves coprime cofactors. */
  lemma CofactorsCoprime(a: int, b: int, g: int, u: int, v: int)
    requires a > 0 && b > 0 && g == Gcd(a, b) && g > 0 && u > 0 && v > 0
    requires a == g * u && b == g * v
    ensures Gcd(u, v) == 1
  {
    GcdScale(g, u, v);
    MulCancel(g, Gcd(u, v), 1);
  }

  /** `u * b` with `a == g * u` and `b == g * v` is a positive multiple of `a` and of `b`. */
  lemma LcmIsCommonMultiple(a: int, b: int, g: int, u: int, v: int, l: int)
    requires a > 0 && b > 0 && g > 0 && u > 0 && v > 0
    requires a == g * u && b == g * v && l == u * b
    ensures l > 0 && Divides(a, l) && Divides(b, l) && l == u * (g * v)
  {
    MulPositive(u, b);
    assert l == a * v by { Reassociate(u, g, v); }
    MultipleDivides(a, v);
    assert l == b * u;
    MultipleDivides(b, u);
  }

  lemma LcmDividesCommonMultiple(g: int, u: int, v: int, m: int)
    requires g > 0 && u > 0 && v > 0 && Gcd(u, v) == 1
    requires Divides(g * u, m) && Divides(g * v, m)
    ensures Divides(u * (g * v), m)
  {
    var s := m / (g * u);
    CofactorDivisible(g, u, v, m);
    CoprimeDividesFactor(v, u, s);
    AssembleMultiple(g, u, v, m);
  }

  lemma CofactorDivisible(g: int, u: int, v: int, m: int)
    requires g > 0 && u > 0 && v > 0
    requires Divides(g * u, m) && Divides(g * v, m)
    ensures Divides(v, u * (m / (g * u)))
  {
    var gu, gv := g * u, g * v;
    var s, t := m / gu, m / gv;
    DividesSplit(gu, m);
    DividesSplit(gv, m);
    assert g * (u * s) == g * (v * t) by {
      assert gu * s == g * (u * s);
      assert gv * t == g * (v * t);
    }
    MulCancel(g, u * s, v * t);
    MultipleDivides(v, t);
  }

  lemma AssembleMultiple(g: int, u: int, v: int, m: int)
    requires g > 0 && u > 0 && v > 0
    requires Divides(g * u, m) && Divides(v, m / (g * u))
    ensures Divides(u * (g * v), m)
  {
    var gu := g * u;
    var s := m / gu;
    var w := s / v;
    DividesSplit(gu, m);
    DividesSplit(v, s);
    assert m == (u * (g * v)) * w by {
      assert m == gu * s;
      assert s == v * w;
      assert gu * (v * w) == (u * (g * v)) * w;
    }
    assert u * (g * v) > 0 by { MulPositive(g, v); MulPositive(u, g * v); }
    MultipleDivides(u * (g * v), w);
  }

  lemma MulPositive(a: int, b: int)
    requires a > 0 && b > 0
    ensures a * b > 0
  {
  }

  lemma MulCancel(g: int, x: int, y: int)
    requires g > 0 && g * x == g * y
    ensures x == y
  {
  }

  /** `Lcm` is symmetric. */
  lemma LcmCommutes(a: int, b: int)
    requires a > 0 && b > 0
    ensures Lcm(a, b) == Lcm(b, a)
  {
    GcdCommutes(a, b);
    var g := Gcd(a, b);
    GcdDivides(a, b);
    var u, v := a / g, b / g;
    QuotientPositive(g, a);
    QuotientPositive(g, b);
    LcmByCofactor(a, b, g, u);
    LcmByCofactor(b, a, g, v);
    Reassociate(u, g, v);
    Reassociate(v, g, u);
  }

  /** Dividing out a factor common to both arguments divides it out of the lcm. */
  lemma LcmScaleBoth(p: int, x: int, y: int)
    requires p > 0 && x > 0 && y > 0
    ensures p * x > 0 && p * y > 0 && Lcm(p * x, p * y) == p * Lcm(x, y)
  {
    MulPositive(p, x);
    MulPositive(p, y);
    var g := Gcd(x, y);
    GcdDivides(x, y);
    var u := x / g;
    DividesSplit(g, x);
    LcmByCofactor(x, y, g, u);
    GcdScale(p, x, y);
    assert p * x == (p * g) * u;
    LcmByCofactor(p * x, p * y, p * g, u);
    assert u * (p * y) == p * (u * y);
  }

  lemma Reassociate(a: int, b: int, c: int)
    ensures a * (b * c) == b * (a * c) && (a * b) * c == a * (b * c)
  {
  }

  /** The lcm is the cofactor of the gcd in `a` times `b`. */
  lemma LcmByCofactor(a: int, b: int, g: int, u: int)
    requires a > 0 && b > 0 && g == Gcd(a, b) && g > 0 && a == g * u
    ensures Lcm(a, b) == u * b
  {
    ScaledQuotient(g, a, u);
  }

  /** Cancelling a common factor `k` from `n == k * q`. */
  lemma ScaledQuotient(k: int, n: int, q: int)
    requires k > 0 && n == k * q
    ensures n / k == q
  {
    MultipleDivides(k, q);
  }

  /** Dividing out a factor coprime to the other argument divides it out of the lcm. */
  lemma LcmScaleLeft(p: int, x: int, y: int)
    requires p > 0 && x > 0 && y > 0 && Gcd(p, y) == 1
    ensures p * x > 0 && Lcm(p * x, y) == p * Lcm(x, y)
  {
    MulPositive(p, x);
    var g := Gcd(x, y);
    GcdDivides(x, y);
    var u := x / g;
    DividesSplit(g, x);
    LcmByCofactor(x, y, g, u);
    GcdScaleCoprime(p, x, y);
    LcmScaleLeftStep(p, x, y, g, u);
  }

  lemma LcmScaleLeftStep(p: int, x: int, y: int, g: int, u: int)
    requires p > 0 && x > 0 && y > 0 && g > 0 && p * x > 0
    requires x == g * u && g == Gcd(p * x, y) && Lcm(x, y) == u * y
    ensures Lcm(p * x, y) == p * Lcm(x, y)
  {
    var px, pu := p * x, p * u;
    assert px == g * pu by { Reassociate(p, g, u); }
    LcmByCofactor(px, y, g, pu);
    Reassociate(p, u, y);
  }

  /** Multiplying one argument by a factor coprime to the other keeps the gcd. */
  lemma GcdScaleCoprime(p: int, x: int, y: int)
    requires p > 0 && x > 0 && y > 0 && Gcd(p, y) == 1
    ensures p * x > 0 && Gcd(p * x, y) == Gcd(x, y)
  {
    MulPositive(p, x);
    var px := p * x;
    var g, big := Gcd(x, y), Gcd(px, y);
    GcdDivides(x, y);
    GcdDivides(px, y);
    CoprimeCofactor(big, p, x, y);
    DividesMultiple(g, x, p);
    GcdGreatest(px, y, g);
    GcdGreatest(x, y, big);
    DividesAntisymmetric(g, big);
  }

  /** A common divisor of `p * x` and `y`, where `p` is coprime to `y`, divides `x`. */
  lemma CoprimeCofactor(c: int, p: int, x: int, y: int)
    requires p > 0 && x > 0 && y > 0 && Gcd(p, y) == 1
    requires Divides(c, p * x) && Divides(c, y)
    ensures Divides(c, x)
  {
    var h := Gcd(p, c);
    GcdDivides(p, c);
    DividesTrans(h, c, y);
    GcdGreatest(p, y, h);
    DivisorBound(h, 1);
    CoprimeDividesFactor(c, p, x);
  }

  /** A divisor of `n` divides every multiple of `n`. */
  lemma DividesMultiple(d: int, n: int, k: int)
    requires Divides(d, n)
    ensures Divides(d, k * n)
  {
    DividesSplit(d, n);
    assert k * n == d * (k * (n / d));
    MultipleDivides(d, k * (n / d));
  }

  /** The mirror image of `LcmScaleLeft`. */
  lemma LcmScaleRight(p: int, x: int, y: int)
    requires p > 0 && x > 0 && y > 0 && Gcd(p, x) == 1
    ensures p * y > 0 && Lcm(x, p * y) == p * Lcm(x, y)
  {
    LcmScaleLeft(p, y, x);
    LcmCommutes(x, p * y);
    LcmCommutes(x, y);
  }

  /** Left fold of `Lcm` over a sequence, from an accumulator. */
  function LcmFold(acc: int, s: seq<int>): int
    requires acc > 0 && forall i :: 0 <= i < |s| ==> s[i] > 0
    decreases |s|
  {
    if |s| == 0 then acc
    else
      LcmIsLeast(acc, s[0]);
      LcmFold(Lcm(acc, s[0]), s[1..])
  }

  /** The lcm of a whole sequence, folded from 1 (so the lcm of nothing is 1). */
  function LcmSeq(s: seq<int>): int
    requires forall i :: 0 <= i < |s| ==> s[i] > 0
  {
    LcmFold(1, s)
  }

  /** The fold is a positive common multiple of the accumulator and every element,
      and it divides every such common multiple. */
  lemma {:induction false} LcmFoldIsLeast(acc: int, s: seq<int>)
    requires acc > 0 && forall i :: 0 <= i < |s| ==> s[i] > 0
    ensures LcmFold(acc, s) > 0 && Divides(acc, LcmFold(acc, s))
    ensures forall i :: 0 <= i < |s| ==> Divides(s[i], LcmFold(acc, s))
    ensures forall m :: Divides(acc, m) && (forall i :: 0 <= i < |s| ==> Divides(s[i], m))
                        ==> Divides(LcmFold(acc, s), m)
    decreases |s|
  {
    if |s| > 0 {
      var l := Lcm(acc, s[0]);
      LcmIsLeast(acc, s[0]);
      LcmFoldIsLeast(l, s[1..]);
      var r := LcmFold(acc, s);
      assert r == LcmFold(l, s[1..]);
      DividesTrans(acc, l, r);
      DividesTrans(s[0], l, r);
      forall i | 0 <= i < |s|
        ensures Divides(s[i], r)
      {
        if i > 0 {
          assert s[i] == s[1..][i - 1];
        }
      }
      forall m | Divides(acc, m) && (forall i :: 0 <= i < |s| ==> Divides(s[i], m))
        ensures Divides(r, m)
      {
        assert Divides(s[0], m);
        assert Divides(l, m);
        forall i | 0 <= i < |s[1..]|
          ensures Divides(s[1..][i], m)
        {
          assert s[1..][i] == s[i + 1];
        }
      }
    }
  }

  /** `LcmSeq` is the least common multiple of all its elements. */
  lemma LcmSeqIsLeast(s: seq<int>)
    requires forall i :: 0 <= i < |s| ==> s[i] > 0
    ensures LcmSeq(s) > 0
    ensures forall i :: 0 <= i < |s| ==> Divides(s[i], LcmSeq(s))
    ensures forall m :: (forall i :: 0 <= i < |s| ==> Divides(s[i], m)) ==> Divides(LcmSeq(s), m)
  {
    LcmFoldIsLeast(1, s);
    forall m | forall i :: 0 <= i < |s| ==> Divides(s[i], m)
      ensures Divides(LcmSeq(s), m)
    {
      assert Divides(1, m);
    }
  }

  /** Folding the lcm over copies of the accumulator leaves it unchanged. */
  lemma {:induction false} LcmFoldConstant(d: int, s: seq<int>)
    requires d > 0 && forall i :: 0 <= i < |s| ==> s[i] == d
    ensures LcmFold(d, s) == d
    decreases |s|
  {
    if |s| > 0 {
      assert Gcd(d, d) == d by { assert d % d == 0; }
      assert d / d == 1;
      assert Lcm(d, s[0]) == d;
      LcmFoldConstant(d, s[1..]);
    }
  }

  /** The lcm of a non-empty sequence whose elements all equal `d` is `d`. */
  lemma LcmSeqConstant(d: int, s: seq<int>)
    requires d > 0 && |s| > 0 && forall i :: 0 <= i < |s| ==> s[i] == d
    ensures LcmSeq(s) == d
  {
    assert Gcd(1, d) == 1 by {
      if d > 1 { assert 1 % d == 1; assert Gcd(1, d) == Gcd(d, 1); }
    }
    assert Lcm(1, d) == d;
    assert LcmSeq(s) == LcmFold(Lcm(1, s[0]), s[1..]);
    LcmFoldConstant(d, s[1..]);
  }
}
