/** `Fraccion`: a sign, a numerator and a denominator, read as the exact
    rational number `sign * num / den`. Every operation returns a new value;
    the source's in-place updates of the fields become results. */
module Fractions {
  import opened NumberTheory
  import opened Factorization

  /** The two members of `Signo`. */
  const Plus := 1
  const Minus := -1

  datatype Frac = Frac(sign: int, num: int, den: int)

  predicate ValidSign(s: int)
  {
    s == Plus || s == Minus
  }

  /** A fraction the source can work with: a `Signo` sign and a non-zero denominator. */
  predicate WellFormed(f: Frac)
  {
    ValidSign(f.sign) && f.den != 0
  }

  /** The shape after sign folding: the sign carries everything, numerator and
      denominator are magnitudes, and zero is positive. */
  predicate Normalized(f: Frac)
  {
    ValidSign(f.sign) && f.num >= 0 && f.den > 0 && (f.num == 0 ==> f.sign == Plus)
  }

  /** The exact rational value `sign * num / den`. */
  function Value(f: Frac): real
    requires f.den != 0
  {
    (f.sign * f.num) as real / f.den as real
  }

  function Abs(x: int): nat
  {
    if x < 0 then -x else x
  }

  /** The sign of a non-zero integer; zero contributes no sign. */
  function Signum(x: int): int
  {
    if x > 0 then 1 else if x < 0 then -1 else 0
  }

  /** `tomarSigno`: fold the signs of numerator and denominator into `sign`.
      The source extracts each sign as `x / |x|`, which is undefined for a zero
      numerator; here a zero numerator contributes no sign and the result is a
      positive zero over `|den|`. */
  function Normalize(f: Frac): (r: Frac)
    requires WellFormed(f)
    ensures Normalized(r)
    ensures r.num == Abs(f.num) && r.den == Abs(f.den)
    ensures f.num != 0 ==> r.sign == f.sign * Signum(f.num) * Signum(f.den)
    ensures Value(r) == Value(f)
    ensures Normalized(f) ==> r == f
  {
    NormalizeKeepsValue(f);
    if f.num == 0 then Frac(Plus, 0, Abs(f.den))
    else Frac(f.sign * Signum(f.num) * Signum(f.den), Abs(f.num), Abs(f.den))
  }

  lemma NormalizeKeepsValue(f: Frac)
    requires WellFormed(f)
    ensures f.num == 0 ==> Value(Frac(Plus, 0, Abs(f.den))) == Value(f)
    ensures f.num != 0 ==>
      Value(Frac(f.sign * Signum(f.num) * Signum(f.den), Abs(f.num), Abs(f.den))) == Value(f)
  {
    if f.den < 0 {
      var x := (f.sign * Signum(f.num) * Signum(f.den)) * Abs(f.num);
      assert x == -(f.sign * f.num);
      NegateBoth(f.sign * f.num, f.den);
    }
  }

  lemma NegateBoth(x: int, d: int)
    requires d != 0
    ensures (-x) as real / (-d) as real == x as real / d as real
  {
  }

  /** Normalizing twice is normalizing once. */
  lemma NormalizeIdempotent(f: Frac)
    requires WellFormed(f)
    ensures Normalize(Normalize(f)) == Normalize(f)
  {
  }

  /** Scaling numerator and denominator alike keeps the value. */
  lemma ValueScale(s: int, u: int, v: int, k: int)
    requires v != 0 && k > 0
    ensures k * v != 0
    ensures Value(Frac(s, u * k, v * k)) == Value(Frac(s, u, v))
  {
    var x, vr, kr := (s * u) as real, v as real, k as real;
    assert (s * (u * k)) as real == x * kr;
    assert (v * k) as real == vr * kr;
    assert (x * kr) / (vr * kr) == x / vr;
  }

  /** `simplificar`: normalize, then divide numerator and denominator by
      `maxcd(num, den)`. `maxcd` returns 1 when an argument is below 2, so a
      zero numerator keeps its denominator. */
  function Simplify(f: Frac): (r: Frac)
    requires WellFormed(f)
    ensures Normalized(r) && r.sign == Normalize(f).sign
    ensures Value(r) == Value(f)
    ensures r.num != 0 ==> Gcd(r.num, r.den) == 1
    ensures r.num == 0 ==> r == Normalize(f)
  {
    var n := Normalize(f);
    var g := if n.num >= 1 then Gcd(n.num, n.den) else 1;
    SimplifyFacts(n, g);
    Frac(n.sign, n.num / g, n.den / g)
  }

  lemma SimplifyFacts(n: Frac, g: int)
    requires Normalized(n) && g == (if n.num >= 1 then Gcd(n.num, n.den) else 1)
    ensures g > 0 && n.den / g > 0 && n.num / g >= 0
    ensures (n.num / g == 0) == (n.num == 0)
    ensures Value(Frac(n.sign, n.num / g, n.den / g)) == Value(n)
    ensures n.num != 0 ==> Gcd(n.num / g, n.den / g) == 1
  {
    if n.num >= 1 {
      GcdDivides(n.num, n.den);
      var u, v := n.num / g, n.den / g;
      QuotientPositive(g, n.num);
      QuotientPositive(g, n.den);
      GcdScale(g, u, v);
      assert g * Gcd(u, v) == g * 1;
      ValueScale(n.sign, u, v, g);
      assert u * g == n.num && v * g == n.den;
    }
  }

  /** `simplificar` computed as the source computes it: fold the signs, then
      divide both parts by the trial-division `maxcd`. The result is `Simplify`. */
  method SimplifyByTrialDivision(f: Frac) returns (r: Frac)
    requires WellFormed(f)
    ensures r == Simplify(f)
  {
    var n := Normalize(f);
    var g := MaxCommonDivisor(n.num, n.den);
    r := Frac(n.sign, n.num / g, n.den / g);
  }

  /** Simplifying a simplified fraction changes nothing. */
  lemma SimplifyIdempotent(f: Frac)
    requires WellFormed(f)
    ensures Simplify(Simplify(f)) == Simplify(f)
  {
  }

  /** For non-zero values `Simplify` is a canonical form: two fractions have the
      same value exactly when they simplify to the same fraction. */
  lemma {:induction false} SimplifyCanonical(f: Frac, g: Frac)
    requires WellFormed(f) && WellFormed(g) && Value(f) != 0.0
    ensures Value(f) == Value(g) <==> Simplify(f) == Simplify(g)
  {
    if Value(f) == Value(g) {
      var r1, r2 := Simplify(f), Simplify(g);
      CanonicalUnique(r1, r2);
    }
  }

  /** Two simplified non-zero fractions of equal value are identical. */
  lemma CanonicalUnique(r1: Frac, r2: Frac)
    requires Normalized(r1) && Normalized(r2) && r1.num != 0 && r2.num != 0
    requires Gcd(r1.num, r1.den) == 1 && Gcd(r2.num, r2.den) == 1
    requires Value(r1) == Value(r2)
    ensures r1 == r2
  {
    var a, b, c, d := r1.num, r1.den, r2.num, r2.den;
    SignOfValue(r1);
    SignOfValue(r2);
    assert r1.sign == r2.sign;
    CrossMultiply(r1.sign, a, b, c, d);
    assert a * d == c * b;
    GcdCommutes(a, b);
    GcdCommutes(c, d);
    assert Divides(a, b * c) by { MultipleDivides(a, d); }
    CoprimeDividesFactor(a, b, c);
    assert Divides(c, d * a) by { MultipleDivides(c, b); }
    CoprimeDividesFactor(c, d, a);
    DividesAntisymmetric(a, c);
    MulCancel(a, d, b);
  }

  /** A normalized fraction is negative exactly when its sign is `Minus`. */
  lemma SignOfValue(r: Frac)
    requires Normalized(r)
    ensures Value(r) < 0.0 <==> r.sign == Minus
    ensures Value(r) > 0.0 <==> r.sign == Plus && r.num > 0
  {
    if r.sign == Minus {
      assert (r.sign * r.num) as real == -(r.num as real);
    }
  }

  lemma CrossMultiply(s: int, a: int, b: int, c: int, d: int)
    requires b > 0 && d > 0 && (s == 1 || s == -1)
    requires (s * a) as real / b as real == (s * c) as real / d as real
    ensures a * d == c * b
  {
    var ar, br, cr, dr := a as real, b as real, c as real, d as real;
    assert ar / br == cr / dr;
    assert ar * dr == cr * br;
    assert (a * d) as real == ar * dr;
    assert (c * b) as real == cr * br;
  }

  /** The sign token `toString` puts in front of a fraction: `"- "` for a
      negative value, otherwise `"+ "` or nothing as `showPlus` asks. A zero
      numerator is folded by the corrected `Normalize`, so zero gets the
      positive token; the source, whose sign becomes `NaN` there, prints `"- "`. */
  function SignToken(f: Frac, showPlus: bool): (t: string)
    requires WellFormed(f)
    ensures t == "- " <==> Value(f) < 0.0
    ensures t == "+ " <==> Value(f) >= 0.0 && showPlus
    ensures t == "" <==> Value(f) >= 0.0 && !showPlus
  {
    var n := Normalize(f);
    SignOfValue(n);
    if n.sign == Plus && showPlus then "+ "
    else if n.sign == Plus then ""
    else "- "
  }
}
