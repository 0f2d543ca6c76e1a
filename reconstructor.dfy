/** `dec_to_fraction` of src/cf.rs: expand a number into its continued
    fraction coefficients, then take the final convergent p/q. */
module Reconstructor {
  import opened Primitives
  import opened ContinuedFractions
  import opened Convergents

  /** The error bound: for a value in [0, 2^64) the continued fraction of
      its coefficients differs from the value by at most the last remainder
      the loop tested. Each step replaces the gap at the next value by a
      smaller one, so the gap never grows past the final remainder; when that
      remainder is zero the value is recovered exactly. */
  lemma {:induction false} ApproximationBound(n: real, steps: nat)
    requires 0.0 <= n < TwoTo64 as real && steps >= 1
    ensures -FinalRemainder(n, steps) <= n - Value(Expansion(n, steps)) <= FinalRemainder(n, steps)
    decreases steps
  {
    if Remainder(n) > Tolerance && steps > 1 {
      var f := Remainder(n);
      var m := 1.0 / f;
      NextValueBounds(n);
      ApproximationBound(m, steps - 1);
      var e := Expansion(n, steps);
      assert e[1..] == Expansion(m, steps - 1);
      GapShrinks(n, Coefficient(n) as real, f, m, Value(e[1..]), Value(e), FinalRemainder(n, steps));
    }
  }

  /** The arithmetic of `ApproximationBound`'s inductive case: with
      f = n − c > 0, m = 1/f > 1 and v >= 1 within g of m, the value c + 1/v
      is within g of n, because n − (c + 1/v) = (v − m)/(m·v). */
  lemma GapShrinks(n: real, c: real, f: real, m: real, v: real, w: real, g: real)
    requires f == n - c && f > 0.0 && m == 1.0 / f && m > 1.0
    requires v >= 1.0 && w == c + 1.0 / v && -g <= m - v <= g
    ensures -g <= n - w <= g
  {
    assert m * f == 1.0;
    var t := m * v;
    assert t >= 1.0 by {
      assert m * v >= 1.0 * v;
    }
    var e := n - w;
    assert e == f - 1.0 / v;
    assert e * t == v - m by {
      assert f * t == v;
      assert (1.0 / v) * t == m;
    }
    if e >= 0.0 {
      assert e * t >= e * 1.0;
    } else {
      assert e * t <= e * 1.0;
    }
  }

  /** The number of coefficients in the expansion of the fraction a/b:
      the number of division steps of Euclid's algorithm on (a, b). */
  function EuclidLength(a: nat, b: nat): nat
    requires b >= 1
    decreases b
  {
    if a % b == 0 then 1 else 1 + EuclidLength(b, a % b)
  }

  /** The Fibonacci numbers 1, 1, 2, 3, 5, 8, … */
  function Fib(k: nat): nat
  {
    if k < 2 then 1 else Fib(k - 1) + Fib(k - 2)
  }

  /** Fibonacci numbers never decrease. */
  lemma {:induction false} FibGrows(i: nat, j: nat)
    requires i <= j
    ensures Fib(i) <= Fib(j)
    decreases j
  {
    if i < j {
      FibGrows(i, j - 1);
    }
  }

  /** Lamé's bound: Euclid's algorithm takes k steps only when the smaller
      number is at least the k-th Fibonacci number. */
  lemma {:induction false} EuclidLengthBound(a: nat, b: nat)
    requires b >= 1
    ensures Fib(EuclidLength(a, b)) <= b
    decreases b
  {
    var r := a % b;
    if r != 0 {
      EuclidLengthBound(b, r);
      if b % r != 0 {
        EuclidLengthBound(r, b % r);
        RemainderAfterQuotient(b, r);
      }
    }
  }

  /** Dividing b by 1 <= r <= b leaves a remainder with r + (b mod r) <= b. */
  lemma RemainderAfterQuotient(b: nat, r: nat)
    requires 1 <= r <= b
    ensures r + b % r <= b
  {
    var q := b / r;
    assert b == q * r + b % r;
    assert q >= 1;
    assert q * r >= r;
  }

  /** A denominator of at most 420 expands in at most 13 coefficients,
      since the 14th Fibonacci number is 610. */
  lemma ShortEuclid(a: nat, b: nat)
    requires 1 <= b <= 420
    ensures EuclidLength(a, b) <= 13
  {
    EuclidLengthBound(a, b);
    if EuclidLength(a, b) > 13 {
      FibGrows(14, EuclidLength(a, b));
    }
  }

  /** The fraction a/b splits into its integer quotient and a fractional
      part (a mod b)/b in [0, 1). */
  lemma FractionParts(a: nat, b: nat)
    requires b >= 1
    ensures a as real / b as real == (a / b) as real + (a % b) as real / b as real
    ensures 0.0 <= (a % b) as real / b as real < 1.0
  {
    var q, r, br := a / b, a % b, b as real;
    assert a == q * b + r;
    assert (q * b + r) as real == q as real * br + r as real;
    var t := r as real / br;
    assert t * br == r as real && r as real < br;
  }

  /** A `u64` numerator over a positive denominator stays below 2^64. */
  lemma FractionBelow(a: nat, b: nat)
    requires 1 <= b && a < TwoTo64
    ensures a as real / b as real < TwoTo64 as real
  {
    var x := a as real / b as real;
    assert x * b as real == a as real;
    assert x <= x * b as real;
  }

  /** The reciprocal of r/b is b/r; when 1 <= r and b < 10^6, r/b is above
      the tolerance. */
  lemma ReciprocalFraction(r: nat, b: nat)
    requires 1 <= r && 1 <= b
    ensures 1.0 / (r as real / b as real) == b as real / r as real
    ensures b < 1000000 ==> r as real / b as real > Tolerance
  {
    var t := r as real / b as real;
    assert t * b as real == r as real;
    if b < 1000000 {
      assert (t - Tolerance) * b as real == r as real - Tolerance * b as real;
      assert r as real - Tolerance * b as real > 0.0;
    }
  }

  /** One loop iteration on the fraction a/b (b below 10^6) pushes the
      integer quotient a div b; it stops when b divides a, and otherwise goes
      on with the fraction b/(a mod b). */
  lemma RationalStep(a: nat, b: nat, steps: nat)
    requires 1 <= b < 1000000 && a < TwoTo64 && steps >= 1
    ensures Coefficient(a as real / b as real) == a / b
    ensures Remainder(a as real / b as real) == (a % b) as real / b as real
    ensures a % b == 0 ==> Remainder(a as real / b as real) == 0.0
    ensures a % b == 0 ==> Expansion(a as real / b as real, steps) == [a / b]
    ensures a % b != 0 ==>
              Remainder(a as real / b as real) > Tolerance &&
              1.0 / Remainder(a as real / b as real) == b as real / (a % b) as real &&
              Expansion(a as real / b as real, steps) ==
                [a / b] + Expansion(b as real / (a % b) as real, steps - 1)
  {
    FractionParts(a, b);
    FractionBelow(a, b);
    if a % b != 0 {
      ReciprocalFraction(a % b, b);
    }
  }

  /** The expansion of a fraction a/b with b below 10^6 follows Euclid's
      algorithm: every nonzero remainder is at least 1/b, above the
      tolerance, so the loop ends only on a zero remainder, once it has
      pushed `EuclidLength(a, b)` coefficients. */
  lemma {:induction false} RationalEndsExactly(a: nat, b: nat, steps: nat)
    requires 1 <= b < 1000000 && a < TwoTo64
    requires EuclidLength(a, b) <= steps
    ensures FinalRemainder(a as real / b as real, steps) == 0.0
    decreases steps
  {
    RationalStep(a, b, steps);
    if a % b != 0 {
      RationalEndsExactly(b, a % b, steps - 1);
    }
  }

  /** The convergent of the expansion of a/b (b below 10^6, enough steps)
      is a/b divided by a common factor g. */
  lemma {:induction false} RationalConvergent(a: nat, b: nat, steps: nat) returns (g: nat)
    requires 1 <= b < 1000000 && a < TwoTo64
    requires EuclidLength(a, b) <= steps
    ensures g >= 1
    ensures a == g * Numerator(Expansion(a as real / b as real, steps))
    ensures b == g * Denominator(Expansion(a as real / b as real, steps))
    decreases steps
  {
    var q, r := a / b, a % b;
    assert a == q * b + r;
    var e := Expansion(a as real / b as real, steps);
    RationalStep(a, b, steps);
    if r == 0 {
      g := b;
      assert e == [q];
      assert Numerator(e) == q && Denominator(e) == 1;
    } else {
      var rest := Expansion(b as real / r as real, steps - 1);
      assert EuclidLength(a, b) == 1 + EuclidLength(b, r);
      g := RationalConvergent(b, r, steps - 1);
      FrontScaled(a, b, q, r, g, rest, e);
    }
  }

  /** `RationalConvergent`'s inductive case: if b/r has convergent
      (b/g)/(r/g), then pushing the quotient q in front gives a/b with the
      same factor g, where a = q·b + r. */
  lemma FrontScaled(a: nat, b: nat, q: u64, r: nat, g: nat, rest: seq<u64>, e: seq<u64>)
    requires a == q * b + r && b == g * Numerator(rest) && r == g * Denominator(rest)
    requires e == [q] + rest
    ensures a == g * Numerator(e) && b == g * Denominator(e)
  {
    FrontStep(q, rest);
    ScaleFront(g, q, Numerator(rest), Denominator(rest), a, b, r);
  }

  /** The arithmetic of `FrontScaled`. */
  lemma ScaleFront(g: int, q: int, p: int, d: int, a: int, b: int, r: int)
    requires a == q * b + r && b == g * p && r == g * d
    ensures a == g * (q * p + d)
  {
    assert g * (q * p + d) == q * (g * p) + g * d;
  }

  /** Cancelling the common factor: the convergent of the expansion of a/b
      is a/b, with numerator at most a and denominator in [1, b]. */
  lemma RationalConvergentReduced(a: nat, b: nat, steps: nat)
    requires 1 <= b < 1000000 && a < TwoTo64
    requires EuclidLength(a, b) <= steps
    ensures Numerator(Expansion(a as real / b as real, steps)) <= a
    ensures 1 <= Denominator(Expansion(a as real / b as real, steps)) <= b
    ensures Numerator(Expansion(a as real / b as real, steps)) as real /
            Denominator(Expansion(a as real / b as real, steps)) as real == a as real / b as real
  {
    var g := RationalConvergent(a, b, steps);
    var e := Expansion(a as real / b as real, steps);
    CancelFactor(g, Numerator(e), Denominator(e), a, b);
  }

  /** A common factor cancels: (g·p)/(g·d) = p/d, with p <= g·p and
      1 <= d <= g·d. */
  lemma CancelFactor(g: nat, p: nat, d: nat, a: nat, b: nat)
    requires g >= 1 && b >= 1 && a == g * p && b == g * d
    ensures p <= a && 1 <= d <= b
    ensures p as real / d as real == a as real / b as real
  {
    assert d != 0;
    assert g * p >= 1 * p && g * d >= 1 * d;
    assert a as real == g as real * p as real && b as real == g as real * d as real;
  }

  /** The round trip: a fraction a/b with a `u64` numerator and a
      denominator of at most 420 expands exactly (its last remainder is
      zero), no recursion overflows `u64`, and the convergent found is a/b
      itself, with numerator at most a and denominator at most b. */
  lemma RationalRoundTrip(a: u64, b: nat)
    requires 1 <= b <= 420
    ensures FinalRemainder(a as real / b as real, MaxSteps) == 0.0
    ensures FindConvergents(Expansion(a as real / b as real, MaxSteps)).Some?
    ensures var r := FindConvergents(Expansion(a as real / b as real, MaxSteps)).value;
            r.0 <= a && 1 <= r.1 <= b && r.0 as real / r.1 as real == a as real / b as real
  {
    ShortEuclid(a, b);
    RationalEndsExactly(a, b, MaxSteps);
    RationalConvergentReduced(a, b, MaxSteps);
    FractionBelow(a, b);
    var e := Expansion(a as real / b as real, MaxSteps);
    assert TailPositive(e);
    NoIntermediateOverflow(e);
    FindConvergentsExact(e);
  }

  /** `dec_to_fraction(n)`: the final convergent of the continued fraction
      expansion of `n`, or `None` where the source's `u64` arithmetic would
      overflow. */
  method DecToFraction(n: real) returns (r: Option<(u64, u64)>)
    ensures r == FindConvergents(Expansion(n, MaxSteps))
    ensures r.None? <==>
              !(NumeratorsFit(Expansion(n, MaxSteps)) && DenominatorsFit(Expansion(n, MaxSteps)))
    ensures n <= Tolerance ==> r == Some((0, 1))
    ensures 0.0 <= n < TwoTo64 as real && n == n.Floor as real ==> r == Some((n.Floor, 1))
    ensures n < TwoTo64 as real && r.Some? ==>
              r.value.1 >= 1 && r.value.0 as real / r.value.1 as real == Value(Expansion(n, MaxSteps))
    ensures 0.0 <= n < TwoTo64 as real && r.Some? ==>
              -FinalRemainder(n, MaxSteps) <= n - r.value.0 as real / r.value.1 as real <= FinalRemainder(n, MaxSteps)
    ensures 0.0 <= n < TwoTo64 as real && FinalRemainder(n, MaxSteps) <= Tolerance && r.Some? ==>
              -Tolerance <= n - r.value.0 as real / r.value.1 as real <= Tolerance
  {
    var coef := ContinuedFraction(n);
    r := FindConvergents(coef);
    FindConvergentsExact(coef);
    if n <= Tolerance {
      ExpansionOfSmallInput(n, MaxSteps);
    }
    if 0.0 <= n < TwoTo64 as real && n == n.Floor as real {
      ExpansionOfIntegral(n.Floor, MaxSteps);
    }
    if n < TwoTo64 as real {
      ConvergentValue(coef);
      if 0.0 <= n {
        ApproximationBound(n, MaxSteps);
      }
    }
  }

  /** A worked case: 0.5 expands to [0, 2] and reconstructs as 1/2. */
  lemma HalfReconstructs()
    ensures Expansion(0.5, MaxSteps) == [0, 2]
    ensures FindConvergents([0, 2]) == Some((1, 2))
  {
    assert Coefficient(0.5) == 0;
    assert Remainder(0.5) == 0.5;
    assert Coefficient(2.0) == 2 && Remainder(2.0) == 0.0;
    assert [0, 2][..1] == [0] && [0, 2][..0] == [];
  }
}
