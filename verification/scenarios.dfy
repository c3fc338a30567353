/** Concrete expressions of the demo driver and of two places where the code
    as written departs from its evident intent: a top-level parenthesised term,
    and a zero numerator reaching sign folding. */
module Scenarios {
  import opened NumberTheory
  import opened Fractions
  import opened Expressions
  import opened Optional

  /** The demo expression `2 - 7/3 + 5/6`, built with the builder calls. */
  function DemoExpression(): (ts: seq<Term>)
    ensures WellFormedTerms(ts) && |ts| == 3
    ensures TermsValue(ts) == 2.0 - 7.0 / 3.0 + 5.0 / 6.0
  {
    AddFraction(AddFraction(AddNumber([], 2), Frac(Minus, 7, 3)), Frac(Plus, 5, 6))
  }

  /** The demo reduces over the lcm 6 to `3/6`, which simplifies to `1/2`. */
  lemma DemoReduces()
    ensures Resolve(DemoExpression()) == Some(Frac(Plus, 3, 6))
    ensures Simplify(Frac(Plus, 3, 6)) == Frac(Plus, 1, 2)
  {
    DemoTerms();
    DemoSum();
    DemoSimplifies();
  }

  /** The demo expression holds one literal per fraction of the demo. */
  lemma DemoTerms()
    ensures ReduceTerms(DemoExpression()) == Some(DemoFractions())
  {
    var ts := DemoExpression();
    var fs := DemoFractions();
    assert ts == [Literal(fs[0]), Literal(fs[1]), Literal(fs[2])];
    LiteralsReduce(ts, fs);
  }

  /** `3/6` simplifies to `1/2`. */
  lemma DemoSimplifies()
    ensures Simplify(Frac(Plus, 3, 6)) == Frac(Plus, 1, 2)
  {
    assert Gcd(3, 6) == 3 by { assert Gcd(3, 6) == Gcd(6, 3) == Gcd(3, 0); }
  }

  function DemoFractions(): (fs: seq<Frac>)
    ensures AllWellFormed(fs) && |fs| == 3
  {
    [Frac(Plus, 2, 1), Frac(Minus, 7, 3), Frac(Plus, 5, 6)]
  }

  /** The demo's denominators 1, 3, 6 have lcm 6. */
  lemma DemoLcm()
    ensures LcmSeq(Denominators(DemoFractions())) == 6
  {
    assert Denominators(DemoFractions()) == [1, 3, 6];
    assert Gcd(1, 1) == 1;
    assert Gcd(1, 3) == 1 by { assert Gcd(1, 3) == Gcd(3, 1); }
    assert Gcd(3, 6) == 3 by { assert Gcd(3, 6) == Gcd(6, 3) == Gcd(3, 0); }
    assert LcmFold(1, [1, 3, 6]) == LcmFold(1, [3, 6]) == LcmFold(3, [6]) == LcmFold(6, []);
  }

  /** Homogenizing the demo rescales every fraction to sixths. */
  lemma DemoHomogenized()
    ensures Homogenize(DemoFractions()) == [Frac(Plus, 12, 6), Frac(Minus, 14, 6), Frac(Plus, 5, 6)]
  {
    var fs := DemoFractions();
    DemoLcm();
    var hs := Homogenize(fs);
    assert hs[0] == Rescale(Normalize(fs[0]), 6) == Frac(Plus, 12, 6);
    assert hs[1] == Rescale(Normalize(fs[1]), 6) == Frac(Minus, 14, 6);
    assert hs[2] == Rescale(Normalize(fs[2]), 6) == Frac(Plus, 5, 6);
  }

  /** Summing the sixths `12/6 - 14/6 + 5/6` gives `3/6`. */
  lemma DemoSixthsSum()
    ensures ReduceHomogeneous([Frac(Plus, 12, 6), Frac(Minus, 14, 6), Frac(Plus, 5, 6)]) == Some(Frac(Plus, 3, 6))
  {
    var hs := [Frac(Plus, 12, 6), Frac(Minus, 14, 6), Frac(Plus, 5, 6)];
    assert hs[1..] == [Frac(Minus, 14, 6), Frac(Plus, 5, 6)];
    assert hs[1..][1..] == [Frac(Plus, 5, 6)];
    assert AddOver(Frac(Plus, 12, 6), hs[1..]) == AddOver(Frac(Plus, -2, 6), hs[1..][1..]);
  }

  /** The demo's fractions take the heterogeneous path and sum to `3/6`. */
  lemma DemoSum()
    ensures Reduce(DemoFractions()) == Some(Frac(Plus, 3, 6))
  {
    var fs := DemoFractions();
    assert !IsHomogeneous(fs) by {
      assert Normalize(fs[1]).den != Normalize(fs[0]).den;
    }
    DemoHomogenized();
    DemoSixthsSum();
  }

  /** An expression made only of literals reduces each term to its own fraction. */
  lemma {:induction false} LiteralsReduce(ts: seq<Term>, fs: seq<Frac>)
    requires |ts| == |fs| && forall i :: 0 <= i < |ts| ==> ts[i] == Literal(fs[i]) && WellFormed(fs[i])
    ensures WellFormedTerms(ts)
    ensures ReduceTerms(ts) == Some(fs)
    decreases |ts|
  {
    if |ts| > 0 {
      LiteralsReduce(ts[1..], fs[1..]);
      assert ReduceTerm(ts[0]) == Some(fs[0]);
      assert ReduceTerms(ts) == Some([fs[0]] + fs[1..]);
      assert [fs[0]] + fs[1..] == fs;
    }
  }

  // ---------------------------------------------------------------------------
  // A parenthesised term at top level

  /** What a reduction call produces when it runs in the source: a result
      (possibly `null`) or a thrown error. */
  datatype Outcome = Returned(result: Option<Frac>) | Threw

  /** `ExpresionAritmetica.reducir` as written, as far as the group crash goes:
      `isFraccionHomogenea` calls `newInstance` on every term, and
      `ExpresionConParentesis` has none, so any top-level group throws. An
      expression of literals reduces as modelled, so a zero numerator among them
      is folded by the corrected `Normalize` rather than becoming `NaN` (that
      departure is exhibited separately by `TakeSignAsWritten`). */
  function ReduceExpressionAsWritten(ts: seq<Term>): (o: Outcome)
    requires WellFormedTerms(ts)
    ensures o.Threw? <==> exists i :: 0 <= i < |ts| && ts[i].Group?
    ensures o.Returned? ==> o.result == ReduceExpression(ts)
  {
    if exists i :: 0 <= i < |ts| && ts[i].Group? then Threw
    else
      assert forall i :: 0 <= i < |ts| ==> ts[i].Literal? && WellFormed(ts[i].frac) by {
        forall i | 0 <= i < |ts| ensures ts[i].Literal? && WellFormed(ts[i].frac) {
          assert WellFormedTerm(ts[i]);
        }
      }
      var fs := seq(|ts|, i requires 0 <= i < |ts| => ts[i].frac);
      LiteralsReduce(ts, fs);
      Returned(Reduce(fs))
  }

  /** The scenario `2 - 7/3 + 5/6 + (1/4 + 3/10)`: as written it throws; the
      model reduces the group to `11/20` first and sums to `21/20`. */
  lemma GroupAtTopLevel()
    ensures var ts := AddGroup(DemoExpression(), Plus, [Literal(Frac(Plus, 1, 4)), Literal(Frac(Plus, 3, 10))]);
      && ReduceExpressionAsWritten(ts) == Threw
      && ReduceExpression(ts).Some?
      && Value(ReduceExpression(ts).value) == 21.0 / 20.0
  {
    var inner := [Literal(Frac(Plus, 1, 4)), Literal(Frac(Plus, 3, 10))];
    assert WellFormedTerms(inner);
    var ts := AddGroup(DemoExpression(), Plus, inner);
    assert ts[3].Group?;
    assert ReducibleTerms(ts) by {
      assert ts == DemoExpression() + [Group(Plus, inner)];
      assert ReducibleTerm(Group(Plus, inner));
    }
    assert TermsValue(inner) == 1.0 / 4.0 + 3.0 / 10.0 by {
      assert TermValue(inner[0]) == 1.0 / 4.0;
      assert TermValue(inner[1]) == 3.0 / 10.0;
      assert inner[1..] == [inner[1]];
      assert inner[1..][1..] == [];
      assert TermsValue(inner[1..]) == TermValue(inner[1]) + TermsValue([]);
    }
  }

  // ---------------------------------------------------------------------------
  // A zero numerator reaching sign folding

  /** `tomarSigno` as written: each sign is extracted as `x / |x|`, which is
      `NaN` when the numerator is 0; `None` stands for that undefined result.
      Wherever it is defined it agrees with `Normalize`. */
  function TakeSignAsWritten(f: Frac): (r: Option<Frac>)
    requires WellFormed(f)
    ensures r.None? <==> f.num == 0
    ensures r.Some? ==> r.value == Normalize(f)
  {
    if f.num == 0 then None
    else
      var signNum, signDen := f.num / Abs(f.num), f.den / Abs(f.den);
      SignByDivision(f.num);
      SignByDivision(f.den);
      Some(Frac(f.sign * signNum * signDen, signNum * f.num, signDen * f.den))
  }

  /** For a non-zero `x`, `x / |x|` is its sign, and that sign times `x` is `|x|`. */
  lemma SignByDivision(x: int)
    requires x != 0
    ensures x / Abs(x) == Signum(x) && Signum(x) * x == Abs(x)
  {
    if x < 0 {
      assert x == (-x) * -1;
    }
  }

  /** `1/2 - 1/2` reduces to `0/2`; as written, `simplificar` on it folds signs
      of a zero numerator and is undefined, while the model's `Simplify` keeps
      the positive zero `0/2`. */
  lemma CancellationToZero()
    ensures var ts := AddFraction(AddFraction([], Frac(Plus, 1, 2)), Frac(Minus, 1, 2));
      && Resolve(ts) == Some(Frac(Plus, 0, 2))
      && TakeSignAsWritten(Frac(Plus, 0, 2)).None?
      && Simplify(Frac(Plus, 0, 2)) == Frac(Plus, 0, 2)
      && Value(Simplify(Frac(Plus, 0, 2))) == 0.0
  {
    var fs := [Frac(Plus, 1, 2), Frac(Minus, 1, 2)];
    var ts := AddFraction(AddFraction([], fs[0]), fs[1]);
    assert ts == [Literal(fs[0]), Literal(fs[1])];
    LiteralsReduce(ts, fs);
    assert IsHomogeneous(fs);
    assert AddOver(Normalize(fs[0]), fs[1..]) == Frac(Plus, 0, 2) by {
      assert fs[1..] == [Frac(Minus, 1, 2)];
    }
  }
}
