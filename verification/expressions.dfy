/** `ExpresionAritmetica` and `ExpresionConParentesis`: an expression is a
    sequence of terms summed left to right; a term is a literal fraction or a
    signed parenthesised sub-expression. Reduction collapses it to one fraction,
    through a fast path when all normalized denominators already agree and
    through homogenization to their lcm otherwise. */
module Expressions {
  import opened NumberTheory
  import opened Factorization
  import opened Fractions
  import opened Optional

  datatype Term =
    | Literal(frac: Frac)
    | Group(sign: int, terms: seq<Term>)

  // ---------------------------------------------------------------------------
  // Well-formedness and meaning of terms

  predicate WellFormedTerm(t: Term)
    decreases t, 1
  {
    match t
    case Literal(f) => WellFormed(f)
    case Group(s, ts) => ValidSign(s) && WellFormedTerms(ts)
  }

  predicate WellFormedTerms(ts: seq<Term>)
    decreases ts, 0
  {
    forall i :: 0 <= i < |ts| ==> WellFormedTerm(ts[i])
  }

  /** Every group, at any depth, has at least one term. The source reduces an
      empty group's expression to `null` and then dereferences it. */
  predicate ReducibleTerm(t: Term)
    decreases t, 1
  {
    match t
    case Literal(_) => true
    case Group(_, ts) => |ts| > 0 && ReducibleTerms(ts)
  }

  predicate ReducibleTerms(ts: seq<Term>)
    decreases ts, 0
  {
    forall i :: 0 <= i < |ts| ==> ReducibleTerm(ts[i])
  }

  /** The exact value a term denotes: a literal's value, or the group's sign
      times the sum of its terms. */
  function TermValue(t: Term): real
    requires WellFormedTerm(t)
    decreases t, 1
  {
    match t
    case Literal(f) => Value(f)
    case Group(s, ts) => s as real * TermsValue(ts)
  }

  function TermsValue(ts: seq<Term>): real
    requires WellFormedTerms(ts)
    decreases ts, 0
  {
    if |ts| == 0 then 0.0 else TermValue(ts[0]) + TermsValue(ts[1..])
  }

  lemma {:induction false} TermsValueAppend(ts: seq<Term>, t: Term)
    requires WellFormedTerms(ts) && WellFormedTerm(t)
    ensures WellFormedTerms(ts + [t])
    ensures TermsValue(ts + [t]) == TermsValue(ts) + TermValue(t)
    decreases |ts|
  {
    if |ts| > 0 {
      assert (ts + [t])[1..] == ts[1..] + [t];
      TermsValueAppend(ts[1..], t);
    }
  }

  // ---------------------------------------------------------------------------
  // Builder: addNumero, addFraccion, addParentesis append one term

  /** `addNumero(n)`: append the integer `n` as the fraction `+n/1`. */
  function AddNumber(ts: seq<Term>, n: int): (r: seq<Term>)
    requires WellFormedTerms(ts)
    ensures |r| == |ts| + 1 && r[..|ts|] == ts
    ensures WellFormedTerms(r)
    ensures TermsValue(r) == TermsValue(ts) + n as real
  {
    TermsValueAppend(ts, Literal(Frac(Plus, n, 1)));
    ts + [Literal(Frac(Plus, n, 1))]
  }

  /** `addFraccion(f)`: append the fraction `f`. */
  function AddFraction(ts: seq<Term>, f: Frac): (r: seq<Term>)
    requires WellFormedTerms(ts) && WellFormed(f)
    ensures |r| == |ts| + 1 && r[..|ts|] == ts
    ensures WellFormedTerms(r)
    ensures TermsValue(r) == TermsValue(ts) + Value(f)
  {
    TermsValueAppend(ts, Literal(f));
    ts + [Literal(f)]
  }

  /** `addParentesis(s, e)`: append the sub-expression `e` with sign `s`. */
  function AddGroup(ts: seq<Term>, s: int, e: seq<Term>): (r: seq<Term>)
    requires WellFormedTerms(ts) && ValidSign(s) && WellFormedTerms(e)
    ensures |r| == |ts| + 1 && r[..|ts|] == ts
    ensures WellFormedTerms(r)
    ensures TermsValue(r) == TermsValue(ts) + s as real * TermsValue(e)
  {
    TermsValueAppend(ts, Group(s, e));
    ts + [Group(s, e)]
  }

  // ---------------------------------------------------------------------------
  // Flat lists of fractions

  predicate AllWellFormed(fs: seq<Frac>)
  {
    forall i :: 0 <= i < |fs| ==> WellFormed(fs[i])
  }

  /** The exact sum of the values of a list of fractions. */
  function Sum(fs: seq<Frac>): real
    requires AllWellFormed(fs)
  {
    if |fs| == 0 then 0.0 else Value(fs[0]) + Sum(fs[1..])
  }

  /** Lists whose elements have pairwise equal values have equal sums. */
  lemma {:induction false} SumPointwise(xs: seq<Frac>, ys: seq<Frac>)
    requires AllWellFormed(xs) && AllWellFormed(ys) && |xs| == |ys|
    requires forall i :: 0 <= i < |xs| ==> Value(xs[i]) == Value(ys[i])
    ensures Sum(xs) == Sum(ys)
    decreases |xs|
  {
    if |xs| > 0 {
      SumPointwise(xs[1..], ys[1..]);
    }
  }

  /** The denominators after sign folding, all positive. */
  function Denominators(fs: seq<Frac>): (ds: seq<int>)
    requires AllWellFormed(fs)
    ensures |ds| == |fs|
    ensures forall i :: 0 <= i < |fs| ==> ds[i] == Normalize(fs[i]).den && ds[i] > 0
  {
    seq(|fs|, i requires 0 <= i < |fs| => Normalize(fs[i]).den)
  }

  /** `isFraccionHomogenea`: every normalized denominator equals the first one
      (vacuously true of an empty list). */
  function IsHomogeneous(fs: seq<Frac>): (b: bool)
    requires AllWellFormed(fs)
    ensures b <==> forall i, j :: 0 <= i < |fs| && 0 <= j < |fs| ==>
                     Normalize(fs[i]).den == Normalize(fs[j]).den
  {
    forall i :: 0 <= i < |fs| ==> Normalize(fs[i]).den == Normalize(fs[0]).den
  }

  /** One step of `homogenizar`: a normalized fraction re-expressed over the
      multiple `l` of its denominator. */
  function Rescale(n: Frac, l: int): (r: Frac)
    requires Normalized(n) && l > 0 && Divides(n.den, l)
    ensures Normalized(r) && r.den == l && r.sign == n.sign
    ensures n.den * (l / n.den) == l && r.num == n.num * (l / n.den)
    ensures Value(r) == Value(n)
  {
    var k := l / n.den;
    QuotientPositive(n.den, l);
    ValueScale(n.sign, n.num, n.den, k);
    assert n.den * k == l;
    Frac(n.sign, n.num * k, l)
  }

  /** `homogenizar`: every fraction rescaled to the lcm of the normalized
      denominators, its numerator multiplied by the exact quotient of the lcm
      by its own denominator. */
  function Homogenize(fs: seq<Frac>): (hs: seq<Frac>)
    requires AllWellFormed(fs)
    ensures |hs| == |fs| && AllWellFormed(hs)
    ensures forall i :: 0 <= i < |fs| ==>
      && Normalized(hs[i])
      && hs[i].den == LcmSeq(Denominators(fs))
      && hs[i].sign == Normalize(fs[i]).sign
      && Value(hs[i]) == Value(fs[i])
    ensures forall i :: 0 <= i < |fs| ==>
      var n, l := Normalize(fs[i]), LcmSeq(Denominators(fs));
      n.den * (l / n.den) == l && hs[i].num == n.num * (l / n.den)
  {
    var ds := Denominators(fs);
    LcmSeqIsLeast(ds);
    var l := LcmSeq(ds);
    seq(|fs|, i requires 0 <= i < |fs| => Rescale(Normalize(fs[i]), l))
  }

  /** The common denominator of `homogenizar`, computed as the source computes
      it: `mincm` over the folded denominators. Every homogenized term sits over it. */
  method CommonDenominator(fs: seq<Frac>) returns (l: int)
    requires AllWellFormed(fs)
    ensures l == LcmSeq(Denominators(fs))
    ensures forall i :: 0 <= i < |fs| ==> Homogenize(fs)[i].den == l
  {
    l := MinCommonMultiple(Denominators(fs));
  }

  // ---------------------------------------------------------------------------
  // Summation

  /** Adding two fractions over the same denominator adds their values. */
  lemma AddSameDenominator(acc: Frac, t: Frac)
    requires WellFormed(acc) && WellFormed(t) && t.den == acc.den
    ensures Value(Frac(Plus, acc.sign * acc.num + t.sign * t.num, acc.den)) == Value(acc) + Value(t)
  {
    var a, b, d := (acc.sign * acc.num) as real, (t.sign * t.num) as real, acc.den as real;
    assert (a + b) / d == a / d + b / d;
  }

  /** The callback of the `reduce` in `reducirHomogeneas`: the running result
      absorbs each normalized term by adding signed numerators over the
      running result's denominator. The result keeps the first denominator;
      its value is the sum when every term shares that denominator. */
  function AddOver(acc: Frac, rest: seq<Frac>): (r: Frac)
    requires WellFormed(acc) && AllWellFormed(rest)
    ensures WellFormed(r) && r.den == acc.den
    ensures SharesDenominator(rest, acc.den) ==> Value(r) == Value(acc) + Sum(rest)
    decreases |rest|
  {
    if |rest| == 0 then acc
    else
      var t := Normalize(rest[0]);
      AddOverStep(acc, rest);
      AddOver(Frac(Plus, acc.sign * acc.num + t.sign * t.num, acc.den), rest[1..])
  }

  /** Every term of `rest` has normalized denominator `d`. */
  predicate SharesDenominator(rest: seq<Frac>, d: int)
    requires AllWellFormed(rest)
  {
    forall i :: 0 <= i < |rest| ==> Normalize(rest[i]).den == d
  }

  lemma AddOverStep(acc: Frac, rest: seq<Frac>)
    requires WellFormed(acc) && AllWellFormed(rest) && |rest| > 0
    ensures var t := Normalize(rest[0]);
      SharesDenominator(rest, acc.den) ==>
        && Value(Frac(Plus, acc.sign * acc.num + t.sign * t.num, acc.den)) == Value(acc) + Value(rest[0])
        && SharesDenominator(rest[1..], acc.den)
  {
    if SharesDenominator(rest, acc.den) {
      AddSameDenominator(acc, Normalize(rest[0]));
      forall i | 0 <= i < |rest[1..]| ensures Normalize(rest[1..][i]).den == acc.den {
        assert rest[1..][i] == rest[i + 1];
      }
    }
  }

  /** `reducirHomogeneas`: `null` for no terms, otherwise the first term
      normalized and then absorbing the others. */
  function ReduceHomogeneous(fs: seq<Frac>): (r: Option<Frac>)
    requires AllWellFormed(fs)
    ensures r.None? <==> |fs| == 0
    ensures r.Some? ==> WellFormed(r.value) && r.value.den == Normalize(fs[0]).den
    ensures r.Some? && IsHomogeneous(fs) ==> Value(r.value) == Sum(fs)
  {
    if |fs| == 0 then None
    else
      var first := Normalize(fs[0]);
      assert IsHomogeneous(fs) ==> SharesDenominator(fs[1..], first.den) by {
        if IsHomogeneous(fs) {
          forall i | 0 <= i < |fs[1..]| ensures Normalize(fs[1..][i]).den == first.den {
            assert fs[1..][i] == fs[i + 1];
          }
        }
      }
      Some(AddOver(first, fs[1..]))
  }

  /** `reducirHeterogeneas`: homogenize, then sum over the common denominator. */
  function ReduceHeterogeneous(fs: seq<Frac>): (r: Option<Frac>)
    requires AllWellFormed(fs)
    ensures r.None? <==> |fs| == 0
    ensures r.Some? ==> WellFormed(r.value) && r.value.den == LcmSeq(Denominators(fs))
    ensures r.Some? ==> Value(r.value) == Sum(fs)
  {
    var hs := Homogenize(fs);
    SumPointwise(hs, fs);
    ReduceHomogeneous(hs)
  }

  /** `reducir` on a list of fractions: the fast path when the normalized
      denominators agree, homogenization otherwise. Either way the result is
      the exact sum over the lcm of the normalized denominators. */
  function Reduce(fs: seq<Frac>): (r: Option<Frac>)
    requires AllWellFormed(fs)
    ensures r.None? <==> |fs| == 0
    ensures r.Some? ==> WellFormed(r.value) && Value(r.value) == Sum(fs)
    ensures r.Some? && IsHomogeneous(fs) ==> r.value.den == Normalize(fs[0]).den
    ensures r.Some? ==> r.value.den == LcmSeq(Denominators(fs))
  {
    if IsHomogeneous(fs) then
      if |fs| > 0 then
        LcmSeqConstant(Normalize(fs[0]).den, Denominators(fs));
        ReduceHomogeneous(fs)
      else
        ReduceHomogeneous(fs)
    else ReduceHeterogeneous(fs)
  }

  /** Path agreement: on a homogeneous list the lcm is the shared denominator,
      homogenizing changes no fraction beyond normalizing it, and both paths
      return the very same fraction. */
  lemma PathAgreement(fs: seq<Frac>)
    requires AllWellFormed(fs) && IsHomogeneous(fs)
    ensures ReduceHeterogeneous(fs) == ReduceHomogeneous(fs)
  {
    if |fs| > 0 {
      var d := Normalize(fs[0]).den;
      LcmSeqConstant(d, Denominators(fs));
      var hs := Homogenize(fs);
      forall i | 0 <= i < |fs|
        ensures Normalize(hs[i]) == Normalize(fs[i])
      {
        RescaleOwnDenominator(Normalize(fs[i]));
      }
      AddOverNormalizes(Normalize(fs[0]), hs[1..], fs[1..]);
    }
  }

  /** Rescaling to a fraction's own denominator leaves it unchanged. */
  lemma RescaleOwnDenominator(n: Frac)
    requires Normalized(n)
    ensures Divides(n.den, n.den) && Rescale(n, n.den) == n
  {
    assert n.den / n.den == 1;
  }

  /** `AddOver` sees its terms only through `Normalize`. */
  lemma {:induction false} AddOverNormalizes(acc: Frac, xs: seq<Frac>, ys: seq<Frac>)
    requires WellFormed(acc) && AllWellFormed(xs) && AllWellFormed(ys) && |xs| == |ys|
    requires forall i :: 0 <= i < |xs| ==> Normalize(xs[i]) == Normalize(ys[i])
    ensures AddOver(acc, xs) == AddOver(acc, ys)
    decreases |xs|
  {
    if |xs| > 0 {
      var t := Normalize(xs[0]);
      var next := Frac(Plus, acc.sign * acc.num + t.sign * t.num, acc.den);
      assert AddOver(acc, xs) == AddOver(next, xs[1..]);
      assert AddOver(acc, ys) == AddOver(next, ys[1..]);
      forall i | 0 <= i < |xs| - 1
        ensures Normalize(xs[1..][i]) == Normalize(ys[1..][i])
      {
        assert xs[1..][i] == xs[i + 1] && ys[1..][i] == ys[i + 1];
      }
      AddOverNormalizes(next, xs[1..], ys[1..]);
    }
  }

  // ---------------------------------------------------------------------------
  // Terms and groups

  /** A term's contribution to the sum: a literal as it is; a group as its
      expression's reduced value, normalized, with the group's sign multiplied
      in (`ExpresionConParentesis.reducir`). An empty group has no value. */
  function ReduceTerm(t: Term): (r: Option<Frac>)
    requires WellFormedTerm(t)
    ensures r.Some? <==> ReducibleTerm(t)
    ensures r.Some? ==> WellFormed(r.value) && Value(r.value) == TermValue(t)
    ensures t.Literal? ==> r == Some(t.frac)
    ensures t.Group? && r.Some? ==>
      && ReduceExpression(t.terms).Some?
      && var n := Normalize(ReduceExpression(t.terms).value);
      && r.value.num == n.num && r.value.den == n.den && r.value.sign == n.sign * t.sign
    decreases t, 2
  {
    match t
    case Literal(f) => Some(f)
    case Group(s, ts) =>
      match ReduceExpression(ts)
      case None => None
      case Some(fr) =>
        var n := Normalize(fr);
        GroupValue(fr, s, ts);
        Some(Frac(n.sign * s, n.num, n.den))
  }

  /** A group's fraction, built from its normalized inner result, has the
      group's value. */
  lemma GroupValue(fr: Frac, s: int, ts: seq<Term>)
    requires WellFormed(fr) && ValidSign(s) && WellFormedTerms(ts)
    requires Value(fr) == TermsValue(ts)
    ensures WellFormedTerm(Group(s, ts))
    ensures var n := Normalize(fr);
      WellFormed(Frac(n.sign * s, n.num, n.den))
      && Value(Frac(n.sign * s, n.num, n.den)) == TermValue(Group(s, ts))
  {
    SignedValue(Normalize(fr), s);
  }

  /** Multiplying the sign by `s` multiplies the value by `s`. */
  lemma SignedValue(n: Frac, s: int)
    requires n.den != 0
    ensures Value(Frac(n.sign * s, n.num, n.den)) == s as real * Value(n)
  {
    var x, d := (n.sign * n.num) as real, n.den as real;
    assert (n.sign * s * n.num) as real == s as real * x;
    assert (s as real * x) / d == s as real * (x / d);
  }

  /** Every term reduced to a fraction, or nothing if some term has no value. */
  function ReduceTerms(ts: seq<Term>): (r: Option<seq<Frac>>)
    requires WellFormedTerms(ts)
    ensures r.Some? <==> ReducibleTerms(ts)
    ensures r.Some? ==> |r.value| == |ts| && AllWellFormed(r.value) && Sum(r.value) == TermsValue(ts)
    decreases ts, 0
  {
    if |ts| == 0 then Some([])
    else
      match ReduceTerm(ts[0])
      case None => None
      case Some(f) =>
        match ReduceTerms(ts[1..])
        case None =>
          assert !ReducibleTerms(ts[1..]);
          None
        case Some(rest) =>
          assert ReducibleTerms(ts) by {
            forall i | 0 <= i < |ts| ensures ReducibleTerm(ts[i]) {
              if i > 0 { assert ts[i] == ts[1..][i - 1]; }
            }
          }
          assert ([f] + rest)[1..] == rest;
          Some([f] + rest)
  }

  /** `ExpresionAritmetica.reducir`, with each group reduced to a fraction
      before the sum: `null` for no terms, otherwise the exact sum of the terms. */
  function ReduceExpression(ts: seq<Term>): (r: Option<Frac>)
    requires WellFormedTerms(ts)
    ensures r.Some? <==> |ts| > 0 && ReducibleTerms(ts)
    ensures r.Some? ==> WellFormed(r.value) && Value(r.value) == TermsValue(ts)
    decreases ts, 1
  {
    match ReduceTerms(ts)
    case None => None
    case Some(fs) => Reduce(fs)
  }

  /** `Calculadora.resolver`: the expression's reduced value. */
  function Resolve(ts: seq<Term>): (r: Option<Frac>)
    requires WellFormedTerms(ts)
    ensures r.Some? <==> |ts| > 0 && ReducibleTerms(ts)
    ensures r.Some? ==> WellFormed(r.value) && Value(r.value) == TermsValue(ts)
  {
    ReduceExpression(ts)
  }
}
