# Exact fraction arithmetic of `aritmetica-basica`, modelled in Dafny

The program evaluates sums of exact fractions. A `Fraccion` is a sign, a
numerator and a denominator. An `ExpresionAritmetica` is a list of terms. Each
term is a fraction or an `ExpresionConParentesis`, which is a signed
parenthesised sub-expression. `reducir` collapses an expression to one
fraction. It uses a fast path when all sign-folded denominators already agree.
Otherwise it rescales every term to the least common multiple of the
denominators and then sums. `Factorizacion` computes that lcm, and the gcd used
by `simplificar`, by trial division.

The model is functional: immutable datatypes and pure functions. The source's
in-place updates become returned values. Values are compared as exact rationals
through `Value(f) == sign * num / den` (a Dafny `real`).

Modules, one per part of the program:

- `NumberTheory`: divisibility, Euclid's `Gcd`, and `Lcm` and its left fold
  `LcmSeq` from 1, with the facts the rest relies on. These are the reference
  definitions.
- `Factorization`: `maxcd`, `mincm2` and `mincm` as loop methods over the
  trial-division candidates 2, 3, 5, 7, 9, … Each is proved to return the Euclid
  gcd or lcm.
- `Fractions`: `Frac`, sign folding (`tomarSigno` → `Normalize`), `simplificar`
  (`Simplify`), and the sign token used by `toString`.
- `Expressions`: the term tree and the builder calls. Also the homogeneous and
  heterogeneous reductions, the group reduction, and `Calculadora.resolver`.
- `Scenarios`: the demo expression, and the two places where the code as written
  departs from its evident intent (see Findings).

Decisions where the code leaves behaviour undefined:

- **Zero numerator.** `tomarSigno` extracts signs as `x / |x|`, which is NaN at
  0. `Normalize` uses an explicit signum, so a zero numerator contributes no
  sign. The result is `+0/|den|`, and the denominator is folded exactly as the
  source folds it.
- **Zero in `simplificar`.** `maxcd(0, d)` is 1 because its loop never runs. So
  `Simplify` keeps `0/d` and does not turn it into `0/1`.
- **Empty group.** The inner `reducir` returns `null`, and `tomarSigno` is then
  called on it. The model gives such a term no value (`None`). An empty
  top-level expression also yields `None`, as `reduce` with a `null` seed does.
- **Top-level groups.** `isFraccionHomogenea` calls `newInstance` on every term,
  and a parenthesised term has no such method. The model reduces each group to a
  fraction before summing (see Findings).
- **Signs.** `Signo` has only `MAS` and `MENOS`, so the model restricts a
  fraction's `sign` to +1 and -1 (a precondition of every operation).
- **Zero denominators.** These are a precondition. With a zero denominator the
  arithmetic yields NaN or Infinity, and `mincm2` never terminates.

gcd and lcm are computed by trial division, as the code does. Euclid's `Gcd`,
and the `Lcm` built on it, are only the reference the loops are proved against.
`SimplifyByTrialDivision` and `CommonDenominator` compose the loop methods with
`Simplify` and `Homogenize`, so those functions are exactly what `simplificar`
and `homogenizar` compute, apart from the zero-numerator folding described above.

## Model

| member | source | states |
|---|---|---|
| Fractions.Normalize | src/index.js:15-22 | After sign folding the numerator is `|num|` and the denominator `|den|`, both non-negative, with the sign carried in `sign`. The exact value is unchanged, and an already-folded fraction is a fixpoint. A zero numerator yields positive zero. |
| Fractions.NormalizeIdempotent | src/index.js:15-22 | Folding signs twice is the same as folding them once. |
| Fractions.Simplify | src/index.js:38-42 | The simplified fraction has the same exact value and sign. A non-zero numerator and the denominator become coprime. A zero numerator leaves the folded fraction unchanged, because `maxcd(0, d)` is 1. |
| Fractions.SimplifyByTrialDivision | src/index.js:38-42 | Folding the signs and dividing both parts by the trial-division `maxcd` gives exactly `Simplify`. |
| Fractions.SimplifyIdempotent | src/index.js:38-42 | Simplifying a simplified fraction changes nothing. |
| Fractions.SimplifyCanonical | src/index.js:38-42 | For a non-zero value, two fractions have equal values exactly when they simplify to the same fraction. |
| Fractions.SignToken | src/index.js:28-36 | The token `toString` prints is `"- "` exactly when the value is negative. Otherwise it is `"+ "` or nothing, as the visibility flag says. Zero takes the positive token under the corrected sign folding; as written the source prints `"- "` for it (see Findings). |
| Factorization.MaxCommonDivisor | src/index.js:152-168 | For positive arguments the trial-division result is Euclid's gcd: it divides both arguments, and every common divisor divides it. If either argument is below 2 the loop never runs and the result is 1. |
| Factorization.MinCommonMultiple2 | src/index.js:170-190 | For positive arguments the result is the lcm: a positive common multiple that divides every common multiple. |
| Factorization.MinCommonMultiple | src/index.js:192-194 | The fold from 1 returns the lcm of all its arguments. Each argument divides it, it divides every common multiple, and with no arguments it is 1. |
| NumberTheory.LcmSeqIsLeast | src/index.js:192-194 | The lcm of a list of positive numbers is positive, is a multiple of every element, and divides every common multiple. |
| NumberTheory.LcmSeqConstant | src/index.js:192-194 | The lcm of a non-empty list whose elements all equal `d` is `d`. |
| Expressions.AddNumber | src/index.js:56-59 | Appending the number `n` keeps the earlier terms and adds exactly `n` to the expression's value. |
| Expressions.AddFraction | src/index.js:61-64 | Appending a fraction keeps the earlier terms and adds its value. |
| Expressions.AddGroup | src/index.js:66-69 | Appending a parenthesised expression keeps the earlier terms and adds its sign times its value. |
| Expressions.IsHomogeneous | src/index.js:71-76 | The check against the first denominator holds exactly when all sign-folded denominators are pairwise equal. |
| Expressions.Homogenize | src/index.js:78-89 | Every rescaled term is folded and has the lcm of the folded denominators as its denominator. It keeps its sign and exact value, and its numerator is multiplied by the exact integer quotient of the lcm by its own denominator. |
| Expressions.CommonDenominator | src/index.js:78-83 | The trial-division `mincm` over the folded denominators is the lcm `LcmSeq`, and every homogenized term sits over it. |
| Expressions.AddOver | src/index.js:92-100 | The running result keeps its denominator. When every remaining term shares that denominator, the result's value is the running value plus the sum of the terms. |
| Expressions.ReduceHomogeneous | src/index.js:91-101 | No terms give `null`. Otherwise the denominator is that of the first folded term, and on a homogeneous list the value is the exact sum of the terms. |
| Expressions.ReduceHeterogeneous | src/index.js:103-106 | No terms give `null`. Otherwise the value is the exact sum and the denominator is the lcm of the folded denominators. |
| Expressions.Reduce | src/index.js:108-113 | No terms give `null`. Otherwise the value is the exact sum of the terms on both paths. The denominator is the lcm of the folded denominators, which on the fast path is the first term's. |
| Expressions.PathAgreement | src/index.js:103-113 | On a homogeneous list the fast path and the homogenizing path return the very same fraction. |
| Expressions.ReduceTerm | src/index.js:134-138 | A literal reduces to itself. A group reduces to its sign times the exact value of its inner expression: its numerator and denominator are those of the folded inner result, and its sign is the folded sign times the group's. A group with no terms at any depth has no value. |
| Expressions.ReduceTerms | src/index.js:134-138 | Reducing every term succeeds exactly when no group is empty. It returns one fraction per term, and their sum is the expression's value. |
| Expressions.ReduceExpression | src/index.js:108-113 | An expression has a value exactly when it is non-empty and has no empty group. That value is the exact sum of its terms, with groups reduced first. |
| Expressions.Resolve | src/index.js:203-205 | `resolver` returns the expression's reduced value. It exists exactly when the expression is non-empty with no empty group, and it equals the exact sum of the terms. |
| Scenarios.DemoReduces | src/index.js:210-218 | The demo `2 - 7/3 + 5/6` reduces to `3/6` over the lcm 6, and `3/6` simplifies to `1/2`. |
| Scenarios.ReduceExpressionAsWritten | src/index.js:71-76 | As written, reduction throws exactly when some top-level term is a parenthesised group. Otherwise it returns what the model's reduction returns. Zero numerators among the literals are folded by the corrected `Normalize`, not turned into NaN; that departure is shown by `TakeSignAsWritten`. |
| Scenarios.GroupAtTopLevel | src/index.js:66-76 | `2 - 7/3 + 5/6 + (1/4 + 3/10)` throws as written. The model reduces it to the exact value `21/20`. |
| Scenarios.TakeSignAsWritten | src/index.js:15-22 | Sign folding by `x / |x|` is undefined exactly when the numerator is 0. Wherever it is defined it agrees with `Normalize`. |
| Scenarios.CancellationToZero | src/index.js:91-101 | `1/2 - 1/2` reduces to `0/2`. As written, sign folding is undefined on that result. The model's `Simplify` keeps the positive zero `0/2`, of value 0. |

## Left out

- `toDecimal` (src/index.js:24-26): floating point, and it ignores the sign.
- `toString` of fractions and expressions (src/index.js:28-36, 115-123, 140-147):
  string formatting. Only the rule choosing the sign token is modelled, as
  `SignToken`. The constructors' `visibleSignoMas || true` always stores `true`,
  so callers can only change the flag after construction. `SignToken` takes it
  as a parameter.
- `newInstance` (src/index.js:44-46): in an immutable model a copy is the value
  itself.
- The demo driver and console output (src/index.js:210-222): I/O. Its
  arithmetic is checked by `DemoReduces`.
- Aliasing from in-place mutation: after `reducir` the source's expression holds
  its homogenised, sign-folded terms, and prints them. The model returns new
  values and leaves the expression unchanged.
- JavaScript numbers are doubles. Integers beyond 2^53 lose precision in the
  source, while the model's integers are unbounded.
- Signs other than `MAS` (+1) and `MENOS` (-1) are excluded by precondition,
  since `Signo` has no other members. The source would carry such a value
  through as a multiplier.
- Zero denominators are excluded by precondition. The source produces NaN or
  Infinity for them, or loops forever in `mincm2`.
- Non-positive arguments to `mincm2` and `mincm` are excluded by precondition.
  The source's loop never ends on them.

## Findings

| source | as written | input that shows it | evidently intended | confidence | as-written member | corrected member |
|---|---|---|---|---|---|---|
| src/index.js:72 | `isFraccionHomogenea` calls `newInstance` on every term, which `ExpresionConParentesis` lacks, so any top-level parenthesised term throws | `2 - 7/3 + 5/6 + (1/4 + 3/10)` built with `addParentesis` | reduce the group to `11/20` first and sum to `21/20` | high; not executed | Scenarios.ReduceExpressionAsWritten | Expressions.ReduceExpression |
| src/index.js:16 | the numerator's sign is taken as `n / Math.abs(n)`, which is NaN for `n = 0`, so sign, numerator and everything after become NaN | `1/2 - 1/2`: `reducir` returns `0/2`, then `simplificar` folds its sign | a zero numerator contributes no sign; `0/2` simplifies to a zero | high; not executed | Scenarios.TakeSignAsWritten | Fractions.Normalize |
