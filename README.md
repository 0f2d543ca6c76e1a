# Rational reconstruction by continued fractions

This project models the rational reconstructor of the `integrate` program
(`src/cf.rs`). `dec_to_fraction(n)` turns a number into a fraction `(p, q)` of
unsigned 64-bit integers in two steps:

1. `continued_fraction` expands `n` into floor coefficients. Each iteration
   pushes `floor(n) as u64`, takes the remainder `f = n - i`, stops once
   `f <= 1e-6`, and otherwise continues from `1/f`. The loop runs at most
   `MAX_STEPS = 16` times.
2. `find_convergents` evaluates the final convergent with the two recurrences
   `p_n` and `q_n`. Their base cases are `[] → 1/0` and `[x] → x/1`. The step
   is `last · X(all but last) + X(all but the last two)`.

Files:

- `primitives.dfy` defines `u64` (as a range of integers) and `Option`.
- `continued_fractions.dfy` has the loop as the method `ContinuedFraction`. It
  is proved equal to the specification function `Expansion`. The lemmas cover
  the length bound, the exact stopping rule (through `Trajectory`, the values
  the loop variable takes), the coefficient ranges and the special inputs.
  `FinalRemainder` is the remainder of the last iteration, the one the loop
  breaks on or stops with after sixteen iterations.
- `convergents.dfy` has `Numerator`/`Denominator` (the recurrences over
  unbounded integers) and `CheckedNumerator`/`CheckedDenominator`/`FindConvergents`
  (the same recursion in `u64`, with `None` wherever the source's arithmetic
  overflows and a debug build panics). It also proves:
  - the exact overflow condition;
  - that the iterative forward pass gives the same pair;
  - that `p/q` is the value of the finite continued fraction;
  - that, when no coefficient after the first is zero (as in every expansion
    of an input below 2^64), `p` and `q` never decrease after the first
    coefficient, so the recursion overflows only if the final pair does;
  - the determinant identity, and from it that `p/q` is in lowest terms.
- `reconstructor.dfy` has `DecToFraction`, the composition of the two steps.
  It relates the result to the input in two ways:
  - the error bound: for an input in [0, 2^64), `p/q` differs from the input
    by at most the last remainder tested, so by at most 1e-6 when the loop
    leaves through its `break`;
  - the round trip: a fraction `a/b` with a `u64` numerator and `1 <= b <= 420`
    comes back as a convergent equal to `a/b`, with no overflow. The proof
    follows Euclid's algorithm on `(a, b)` and uses Lamé's Fibonacci bound to
    show that at most 13 of the 16 iterations are needed.

Numbers are modelled as `real`, so all arithmetic on them is exact. The `as u64`
cast of a float is Rust's saturating cast: values below zero give 0 and values
above the range give `u64::MAX`. A negative input therefore produces the single
coefficient 0: the saturating cast gives 0, the remainder is the input itself,
which is at most 1e-6, so the loop stops. The result is `(0, 1)`. The source
has no separate case for negative inputs; this model follows what the code
does.

## Model

| member | source | states |
|---|---|---|
| `ContinuedFractions.ContinuedFraction` | src/cf.rs:5-19 | The loop returns exactly `Expansion(n, 16)`, with between 1 and 16 coefficients. |
| `ContinuedFractions.Expansion` | src/cf.rs:6-17 | With at least one step allowed there are between 1 and `steps` coefficients, because one is pushed before any break. For inputs below 2^64, every coefficient after the first lies in [1, 999999]. |
| `ContinuedFractions.StoppingRule` | src/cf.rs:8-16 | The loop values start at the input. Coefficient k is the cast floor of the k-th loop value. Every value but the last left a remainder above 1e-6, and the next value is the reciprocal of that remainder. If fewer than `steps` coefficients come out, the last remainder was at most 1e-6. |
| `ContinuedFractions.SaturatingCast` | src/cf.rs:9 | The float-to-`u64` cast gives the `u64` nearest to the integer it is applied to. |
| `ContinuedFractions.Coefficient` | src/cf.rs:9 | Within the `u64` range the coefficient `c` satisfies `c <= n < c + 1`, so it is the floor. Below zero it is 0. |
| `ContinuedFractions.Remainder` | src/cf.rs:11 | Within the `u64` range the remainder lies in [0, 1). Below zero it is the value itself. |
| `ContinuedFractions.NextValueBounds` | src/cf.rs:11-15 | When the loop continues from a value below 2^64, the next value `1/f` lies in (1, 10^6) and its coefficient lies in [1, 999999]. |
| `ContinuedFractions.FinalRemainder` | src/cf.rs:8-16 | For inputs in [0, 2^64), the remainder of the last iteration lies in [0, 1). |
| `ContinuedFractions.FinalRemainderBreaks` | src/cf.rs:12-13 | If fewer than `steps` coefficients come out, the loop left through the `break`: the last remainder is at most 1e-6. |
| `ContinuedFractions.ExpansionOfSmallInput` | src/cf.rs:9-13 | Any input at most 1e-6, including every negative input, expands to `[0]`. |
| `ContinuedFractions.ExpansionOfIntegral` | src/cf.rs:9-13 | An integral input `k` in the `u64` range expands to `[k]`. |
| `Convergents.Numerator` | src/cf.rs:22-29 | `p_n` over unbounded integers; it has no contract of its own. `FrontStep`, `ConvergentValue`, `Determinant` and `NumeratorGrows` state what it computes. |
| `Convergents.Denominator` | src/cf.rs:30-37 | `q_n` over unbounded integers; it has no contract of its own. `FrontStep`, `ConvergentValue`, `Determinant` and `DenominatorGrows` state what it computes. |
| `Convergents.CheckedStep` | src/cf.rs:27-35 | The step of both `p_n` (line 27) and `q_n` (line 35): one `u64` step `x * p1 + p2` succeeds exactly when both operands were computed and the unbounded sum fits in `u64`. The separate overflow check on the product never decides the outcome. |
| `Convergents.CheckedNumerator` | src/cf.rs:22-29 | Whatever `p_n` in `u64` returns is the unbounded numerator. |
| `Convergents.CheckedDenominator` | src/cf.rs:30-37 | Whatever `q_n` in `u64` returns is the unbounded denominator. |
| `Convergents.FindConvergents` | src/cf.rs:21-39 | Whatever `find_convergents` returns is `(Numerator(a), Denominator(a))`. |
| `Convergents.CheckedNumeratorExact` | src/cf.rs:22-29 | `p_n` in `u64` returns the unbounded numerator exactly when the numerator of every prefix fits in `u64`. Otherwise it overflows. |
| `Convergents.CheckedDenominatorExact` | src/cf.rs:30-37 | `q_n` in `u64` returns the unbounded denominator exactly when the denominator of every prefix fits in `u64`. Otherwise it overflows. |
| `Convergents.FindConvergentsExact` | src/cf.rs:21-39 | `find_convergents` returns `(Numerator(a), Denominator(a))` exactly when no visited slice overflows, and `None` otherwise. |
| `Convergents.ConvergentBaseCases` | src/cf.rs:24-34 | `[] → (1, 0)` and `[x] → (x, 1)`. |
| `Convergents.PrefixStep` | src/cf.rs:27-35 | The prefix with one more coefficient follows the recurrence from the two shorter prefixes, with the seeds `p = 0` and `q = 1` used for the prefix of length -1. |
| `Convergents.ForwardPassMatchesRecursion` | src/cf.rs:21-38 | A forward pass seeded with `(p_{-2}, p_{-1}) = (0, 1)` and `(q_{-2}, q_{-1}) = (1, 0)` yields the same pair as the recursions. |
| `Convergents.FrontStep` | src/cf.rs:22-37 | Putting a coefficient `x` in front maps `(p, q)` to `(x·p + q, p)`. |
| `Convergents.Value` | src/cf.rs:21-38 | The value of `a0 + 1/(a1 + … + 1/ak)` lies between `a0` and `a0 + 1`. |
| `Convergents.ConvergentValue` | src/cf.rs:21-38 | If no coefficient after the first is zero, then `q >= 1` and `p/q` equals the value of the finite continued fraction. |
| `Convergents.DenominatorGrows` | src/cf.rs:30-37 | If no coefficient after the first is zero, `q` never decreases as coefficients are appended. |
| `Convergents.NumeratorGrows` | src/cf.rs:22-29 | If no coefficient after the first is zero, `p` never decreases as coefficients are appended after the first. |
| `Convergents.NoIntermediateOverflow` | src/cf.rs:21-38 | If no coefficient after the first is zero and the final `p` and `q` fit in `u64`, then every prefix's numerator and denominator fit, so neither recursion overflows. |
| `Convergents.Determinant` | src/cf.rs:21-38 | `p_k·q_{k-1} − p_{k-1}·q_k = (−1)^(k+1)`. |
| `Convergents.LowestTerms` | src/cf.rs:21-38 | The only positive common divisor of `p` and `q` is 1. |
| `Reconstructor.DecToFraction` | src/cf.rs:1-3 | The result is `find_convergents(continued_fraction(n))`, and is `None` exactly on `u64` overflow. Inputs at most 1e-6 give `(0, 1)`. An integral input `k` in range gives `(k, 1)`. Below 2^64, `q >= 1` and `p/q` is the value of the expansion. For inputs in [0, 2^64), `n − p/q` is within the last remainder tested, and within 1e-6 when that remainder is at most 1e-6. |
| `Reconstructor.ApproximationBound` | src/cf.rs:5-19 | For inputs in [0, 2^64), the value of the expansion differs from the input by at most the remainder of the last iteration. |
| `Reconstructor.ShortEuclid` | src/cf.rs:6-8 | Euclid's algorithm on a fraction with denominator at most 420 takes at most 13 steps, within the 16 iterations allowed. |
| `Reconstructor.RationalStep` | src/cf.rs:9-15 | For `1 <= b < 10^6` and a numerator `a` below 2^64, one iteration on `a/b` pushes `a div b`. It stops when `b` divides `a`. Otherwise the remainder is above 1e-6 and the loop goes on from `b/(a mod b)`. |
| `Reconstructor.RationalEndsExactly` | src/cf.rs:5-19 | For `1 <= b < 10^6` and a numerator `a` below 2^64, when Euclid's algorithm on `(a, b)` fits in the steps allowed, the expansion of `a/b` ends on a zero remainder. |
| `Reconstructor.RationalConvergentReduced` | src/cf.rs:1-39 | Under the same conditions the convergent of the expansion of `a/b` equals `a/b`, with numerator at most `a` and denominator in [1, `b`]. |
| `Reconstructor.RationalRoundTrip` | src/cf.rs:1-39 | For a `u64` numerator `a` and `1 <= b <= 420`, `dec_to_fraction(a/b)` ends on a zero remainder, does not overflow, and returns `(p, q)` with `p/q = a/b`, `p <= a` and `q <= b`. |
| `Reconstructor.HalfReconstructs` | src/cf.rs:1-39 | Worked case: 0.5 expands to `[0, 2]`, whose convergent is `(1, 2)`. |

## Left out

- Floating point: `f64` rounding of `n - i as f64` and `1.0 / f` is not modelled; the model computes exactly over `real`. The constant 1e-6 is exact here, whereas in `f64` it is only the nearest binary value. Rounding of `u64` to `f64` (for example `u64::MAX as f64` is 2^64) is not modelled either. One consequence: at the input 2^64 the model pushes `u64::MAX`, leaves the remainder 1 and expands to `[u64::MAX, 1]`, whose numerator overflows (`None`); the source computes the remainder 0.0 there and returns `(u64::MAX, 1)`. NaN and infinite inputs are not modelled; in the source a NaN input never breaks and yields sixteen zero coefficients. The round trip is stated for the exact quotient `a/b`, not for its nearest `f64`.
- ContinuedFractions.Expansion: the coefficient range is stated only for inputs below 2^64. With exact arithmetic, an input of 2^64 or more saturates its first coefficient to `u64::MAX` and leaves a remainder of at least 1, so the next coefficient can be 0.
- Convergents.FindConvergents: the wrap-around of a release build (no overflow check) is not modelled. Overflow is modelled as the debug-build panic, `None`.
- The forward pass is a tail-recursive function, not a loop, because the source has no loop there. Slicing cost and recursion depth of the source's `p_n`/`q_n` are not modelled.
- `src/cf.rs` is not declared as a module in `src/main.rs`, so nothing in the program calls `dec_to_fraction`. The rest of `src/main.rs` is not part of this model: the Riemann-sum `integrate`, the float rounding and denominator search in `epsilon_round` and `possible_fraction`, and `main` with its console I/O, external expression evaluator, raw allocation and timing.
