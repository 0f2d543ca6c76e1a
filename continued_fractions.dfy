/** `continued_fraction` of src/cf.rs: expand a number into at most sixteen
    floor coefficients, stopping as soon as the fractional remainder is at most
    1e-6.

    The source works on `f64`; here the number is a `real` and every operation
    on it is exact. The cast `n.floor() as u64` is Rust's saturating
    float-to-integer cast: below zero it gives 0, above the range `u64::MAX`. */
module ContinuedFractions {
  import opened Primitives

  /** `MAX_STEPS`: the loop runs at most this many times. */
  const MaxSteps: nat := 16

  /** The stopping threshold `1e-6` on the remainder. */
  const Tolerance: real := 0.000001

  /** Distance between two integers. */
  function Dist(x: int, y: int): nat
  {
    if x < y then y - x else x - y
  }

  /** Rust's `as u64` applied to a float whose value is the integer `x`: the
      saturating cast gives the `u64` nearest to `x`. */
  function SaturatingCast(x: int): (r: u64)
    ensures forall y: u64 :: Dist(x, r) <= Dist(x, y)
  {
    if x < 0 then 0 else if x > U64Max then U64Max else x
  }

  /** The coefficient pushed for the current value: `n.floor() as u64`.
      Inside the `u64` range it is the floor of the value; below zero it is 0. */
  function Coefficient(x: real): (c: u64)
    ensures 0.0 <= x < TwoTo64 as real ==> c as real <= x < c as real + 1.0
    ensures x < 0.0 ==> c == 0
  {
    SaturatingCast(x.Floor)
  }

  /** The remainder `f = n - i as f64` left after pushing coefficient `i`.
      Inside the `u64` range it lies in [0, 1); below zero it is the value
      itself. */
  function Remainder(x: real): (f: real)
    ensures 0.0 <= x < TwoTo64 as real ==> 0.0 <= f < 1.0
    ensures x < 0.0 ==> f == x
  {
    x - Coefficient(x) as real
  }

  /** The value of `n` at the next iteration, `1.0 / f`, lies strictly
      between 1 and 10^6 when the current value is inside the `u64` range and
      the loop goes on; so does its coefficient, up to 999999. */
  lemma NextValueBounds(x: real)
    requires Remainder(x) > Tolerance
    ensures x < TwoTo64 as real ==>
              1.0 < 1.0 / Remainder(x) < 1000000.0 &&
              1 <= Coefficient(1.0 / Remainder(x)) <= 999999
  {
    if x < TwoTo64 as real {
      var f := Remainder(x);
      var m := 1.0 / f;
      assert f * m == 1.0;
      assert 1.0 < m < 1000000.0;
    }
  }

  /** The coefficients the loop produces, when it may still run `steps` times
      from the value `n`: the specification of `ContinuedFraction`. Its result
      is never empty (a coefficient is pushed before any break) and never
      longer than `steps`; inside the `u64` range every coefficient after the
      first lies in [1, 999999]. */
  function Expansion(n: real, steps: nat): (coef: seq<u64>)
    ensures steps >= 1 ==> 1 <= |coef| <= steps
    ensures steps == 0 ==> coef == []
    ensures n < TwoTo64 as real ==> forall k :: 1 <= k < |coef| ==> 1 <= coef[k] <= 999999
    decreases steps
  {
    if steps == 0 then []
    else if Remainder(n) <= Tolerance then [Coefficient(n)]
    else
      NextValueBounds(n);
      [Coefficient(n)] + Expansion(1.0 / Remainder(n), steps - 1)
  }

  // `Expansion`, `Trajectory`, `ExpansionAfter` and `FinalRemainder` share
  // one recursion, each giving one view of the same run of the loop: the
  // coefficients pushed, the values `n` takes, the loop's state as it
  // accumulates (the form its invariant needs), and the last remainder
  // compared with the tolerance (the form the error bound needs). Keeping
  // each a recursion of its own lets a proof about one view unfold it a step
  // at a time; `StoppingRule`, `ExpansionAfterSplits` and
  // `FinalRemainderBreaks` tie the views to `Expansion`.

  /** The successive values taken by the loop variable `n`, one per pushed
      coefficient. */
  function Trajectory(n: real, steps: nat): seq<real>
    decreases steps
  {
    if steps == 0 then []
    else if Remainder(n) <= Tolerance then [n]
    else [n] + Trajectory(1.0 / Remainder(n), steps - 1)
  }

  /** The remainder `f` of the last iteration, the one the loop either
      breaks on or, after `steps` iterations, stops with. Inside the `u64`
      range it lies in [0, 1). */
  function FinalRemainder(n: real, steps: nat): (f: real)
    requires steps >= 1
    ensures 0.0 <= n < TwoTo64 as real ==> 0.0 <= f < 1.0
    decreases steps
  {
    if Remainder(n) <= Tolerance || steps == 1 then Remainder(n)
    else
      NextValueBounds(n);
      FinalRemainder(1.0 / Remainder(n), steps - 1)
  }

  /** When the loop pushes fewer than `steps` coefficients it left through
      the `break`: the last remainder is at most the tolerance. */
  lemma {:induction false} FinalRemainderBreaks(n: real, steps: nat)
    requires steps >= 1 && |Expansion(n, steps)| < steps
    ensures FinalRemainder(n, steps) <= Tolerance
    decreases steps
  {
    if Remainder(n) > Tolerance {
      FinalRemainderBreaks(1.0 / Remainder(n), steps - 1);
    }
  }

  /** The loop's view of the expansion: the coefficients `done` pushed so
      far, followed by those the loop still pushes from the value `n`. */
  ghost function ExpansionAfter(done: seq<u64>, n: real, steps: nat): seq<u64>
    decreases steps
  {
    if steps == 0 then done
    else if Remainder(n) <= Tolerance then done + [Coefficient(n)]
    else ExpansionAfter(done + [Coefficient(n)], 1.0 / Remainder(n), steps - 1)
  }

  /** The loop's view is the coefficients pushed so far followed by the
      expansion of the current value. */
  lemma {:induction false} ExpansionAfterSplits(done: seq<u64>, n: real, steps: nat)
    ensures ExpansionAfter(done, n, steps) == done + Expansion(n, steps)
    decreases steps
  {
    if steps > 0 && Remainder(n) > Tolerance {
      var c, rest := Coefficient(n), Expansion(1.0 / Remainder(n), steps - 1);
      ExpansionAfterSplits(done + [c], 1.0 / Remainder(n), steps - 1);
      assert (done + [c]) + rest == done + ([c] + rest);
    }
  }

  /** `continued_fraction(n)`: the bounded floor/reciprocal loop. */
  method ContinuedFraction(n0: real) returns (coef: seq<u64>)
    ensures coef == Expansion(n0, MaxSteps)
    ensures 1 <= |coef| <= MaxSteps
  {
    var n := n0;
    coef := [];
    for step := 0 to MaxSteps
      invariant |coef| == step
      invariant ExpansionAfter(coef, n, MaxSteps - step) == ExpansionAfter([], n0, MaxSteps)
    {
      var i := Coefficient(n);
      coef := coef + [i];
      var f := n - i as real;
      if f <= Tolerance {
        break;
      } else {
        n := 1.0 / f;
      }
    }
    ExpansionAfterSplits([], n0, MaxSteps);
    assert [] + Expansion(n0, MaxSteps) == Expansion(n0, MaxSteps);
  }

  /** The trajectory has one value per coefficient and starts at `n`. */
  lemma {:induction false} TrajectoryShape(n: real, steps: nat)
    requires steps >= 1
    ensures |Trajectory(n, steps)| == |Expansion(n, steps)|
    ensures Trajectory(n, steps)[0] == n
    decreases steps
  {
    if steps > 1 && Remainder(n) > Tolerance {
      TrajectoryShape(1.0 / Remainder(n), steps - 1);
    }
  }

  /** The stopping rule is exact. The values of `n` start at the input;
      coefficient k is the cast floor of the k-th value of `n`; every value but the last left a remainder above the
      tolerance, and the next value is its reciprocal; when fewer than `steps`
      coefficients come out, the last remainder was at most the tolerance. */
  lemma {:induction false} StoppingRule(n: real, steps: nat, k: nat)
    requires steps >= 1 && k < |Expansion(n, steps)|
    ensures |Trajectory(n, steps)| == |Expansion(n, steps)|
    ensures Trajectory(n, steps)[0] == n
    ensures Expansion(n, steps)[k] == Coefficient(Trajectory(n, steps)[k])
    ensures k < |Expansion(n, steps)| - 1 ==>
              Remainder(Trajectory(n, steps)[k]) > Tolerance &&
              Trajectory(n, steps)[k + 1] == 1.0 / Remainder(Trajectory(n, steps)[k])
    ensures k == |Expansion(n, steps)| - 1 && k + 1 < steps ==>
              Remainder(Trajectory(n, steps)[k]) <= Tolerance
    decreases steps
  {
    TrajectoryShape(n, steps);
    if Remainder(n) > Tolerance && steps > 1 {
      var m := 1.0 / Remainder(n);
      TrajectoryShape(m, steps - 1);
      if k > 0 {
        StoppingRule(m, steps - 1, k - 1);
      }
    }
  }

  /** A value at or below the tolerance, every negative value included,
      yields the single coefficient 0: the cast saturates to 0 and the
      remainder is the value itself. */
  lemma ExpansionOfSmallInput(n: real, steps: nat)
    requires n <= Tolerance && steps >= 1
    ensures Expansion(n, steps) == [0]
  {
  }

  /** An integral value inside the `u64` range yields exactly itself. */
  lemma ExpansionOfIntegral(k: u64, steps: nat)
    requires steps >= 1
    ensures Expansion(k as real, steps) == [k]
  {
  }
}
