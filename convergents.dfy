/** `find_convergents` of src/cf.rs and its two inner recurrences `p_n` and
    `q_n`: the final convergent p/q of a sequence of coefficients.

    `Numerator` and `Denominator` are the recurrences over unbounded
    integers. The source computes them in `u64`, which panics on overflow in a
    debug build; `CheckedNumerator`, `CheckedDenominator` and
    `FindConvergents` run the same recursion with that check and give `None`
    where the source would panic. */
module Convergents {
  import opened Primitives

  /** `p_n`: empty → 1, one coefficient x → x, otherwise
      last · p(all but last) + p(all but the last two). */
  function Numerator(a: seq<u64>): nat
    decreases |a|
  {
    if |a| == 0 then 1
    else if |a| == 1 then a[0]
    else
      var x: nat := a[|a| - 1];
      x * Numerator(a[..|a| - 1]) + Numerator(a[..|a| - 2])
  }

  /** `q_n`: empty → 0, one coefficient → 1, otherwise the same recurrence. */
  function Denominator(a: seq<u64>): nat
    decreases |a|
  {
    if |a| == 0 then 0
    else if |a| == 1 then 1
    else
      var x: nat := a[|a| - 1];
      x * Denominator(a[..|a| - 1]) + Denominator(a[..|a| - 2])
  }

  /** `x * prev + prevPrev` in `u64` as a debug build evaluates it: the first
      recursive call, the product, the second recursive call, the sum; `None`
      as soon as one of them overflows. Since every term is non-negative, the
      separate check on the product never decides anything: the step succeeds
      exactly when both operands were computed and the final sum fits. */
  function CheckedStep(x: u64, prev: Option<u64>, prevPrev: Option<u64>): (r: Option<u64>)
    ensures r == if prev.Some? && prevPrev.Some? && x * prev.value + prevPrev.value <= U64Max
                 then Some(x * prev.value + prevPrev.value) else None
  {
    match prev
    case None => None
    case Some(p1) =>
      if x * p1 > U64Max then None
      else
        match prevPrev
        case None => None
        case Some(p2) => if x * p1 + p2 > U64Max then None else Some(x * p1 + p2)
  }

  /** `p_n` with `u64` arithmetic: whatever it returns is the numerator. */
  function CheckedNumerator(a: seq<u64>): (r: Option<u64>)
    ensures r.Some? ==> r.value == Numerator(a)
    decreases |a|
  {
    if |a| == 0 then Some(1)
    else if |a| == 1 then Some(a[0])
    else CheckedStep(a[|a| - 1], CheckedNumerator(a[..|a| - 1]), CheckedNumerator(a[..|a| - 2]))
  }

  /** `q_n` with `u64` arithmetic: whatever it returns is the denominator. */
  function CheckedDenominator(a: seq<u64>): (r: Option<u64>)
    ensures r.Some? ==> r.value == Denominator(a)
    decreases |a|
  {
    if |a| == 0 then Some(0)
    else if |a| == 1 then Some(1)
    else CheckedStep(a[|a| - 1], CheckedDenominator(a[..|a| - 1]), CheckedDenominator(a[..|a| - 2]))
  }

  /** `find_convergents(vec)`: `(p_n(vec), q_n(vec))`, or `None` where either
      recursion overflows `u64`. Whatever it returns is the convergent. */
  function FindConvergents(a: seq<u64>): (r: Option<(u64, u64)>)
    ensures r.Some? ==> r.value == (Numerator(a), Denominator(a))
  {
    match CheckedNumerator(a)
    case None => None
    case Some(p) =>
      match CheckedDenominator(a)
      case None => None
      case Some(q) => Some((p, q))
  }

  /** Every prefix of `a` (every slice the recursion visits) has a numerator
      that fits in `u64`. */
  predicate NumeratorsFit(a: seq<u64>)
  {
    forall k :: 0 <= k <= |a| ==> Numerator(a[..k]) <= U64Max
  }

  /** Every prefix of `a` has a denominator that fits in `u64`. */
  predicate DenominatorsFit(a: seq<u64>)
  {
    forall k :: 0 <= k <= |a| ==> Denominator(a[..k]) <= U64Max
  }

  /** The numerators of the prefixes of `a` fit exactly when those of `a`
      without its last coefficient fit and the numerator of `a` fits. */
  lemma NumeratorsFitExtend(a: seq<u64>)
    requires |a| >= 1
    ensures NumeratorsFit(a) <==> NumeratorsFit(a[..|a| - 1]) && Numerator(a) <= U64Max
  {
    var a1 := a[..|a| - 1];
    if NumeratorsFit(a) {
      assert Numerator(a[..|a|]) <= U64Max && a[..|a|] == a;
      forall k | 0 <= k <= |a1| ensures Numerator(a1[..k]) <= U64Max {
        assert a1[..k] == a[..k];
        assert Numerator(a[..k]) <= U64Max;
      }
    }
    if NumeratorsFit(a1) && Numerator(a) <= U64Max {
      forall k | 0 <= k <= |a| ensures Numerator(a[..k]) <= U64Max {
        if k == |a| {
          assert a[..k] == a;
        } else {
          assert a1[..k] == a[..k];
          assert Numerator(a1[..k]) <= U64Max;
        }
      }
    }
  }

  /** The same for denominators. */
  lemma DenominatorsFitExtend(a: seq<u64>)
    requires |a| >= 1
    ensures DenominatorsFit(a) <==> DenominatorsFit(a[..|a| - 1]) && Denominator(a) <= U64Max
  {
    var a1 := a[..|a| - 1];
    if DenominatorsFit(a) {
      assert Denominator(a[..|a|]) <= U64Max && a[..|a|] == a;
      forall k | 0 <= k <= |a1| ensures Denominator(a1[..k]) <= U64Max {
        assert a1[..k] == a[..k];
        assert Denominator(a[..k]) <= U64Max;
      }
    }
    if DenominatorsFit(a1) && Denominator(a) <= U64Max {
      forall k | 0 <= k <= |a| ensures Denominator(a[..k]) <= U64Max {
        if k == |a| {
          assert a[..k] == a;
        } else {
          assert a1[..k] == a[..k];
          assert Denominator(a1[..k]) <= U64Max;
        }
      }
    }
  }

  /** The checked `p_n` returns the numerator exactly when every prefix's
      numerator fits in `u64`, and reports overflow otherwise. */
  lemma {:induction false} CheckedNumeratorExact(a: seq<u64>)
    ensures CheckedNumerator(a) ==
              if NumeratorsFit(a) then Some(Numerator(a)) else None
    decreases |a|
  {
    var n := |a|;
    if n == 0 {
      assert a[..0] == a;
    } else if n == 1 {
      NumeratorsFitExtend(a);
      assert a[..0] == [];
      assert NumeratorsFit(a[..0]);
    } else {
      var a1, a2 := a[..n - 1], a[..n - 2];
      assert a1[..n - 2] == a2;
      CheckedNumeratorExact(a1);
      CheckedNumeratorExact(a2);
      NumeratorsFitExtend(a);
      if NumeratorsFit(a1) {
        NumeratorsFitExtend(a1);
      }
    }
  }

  /** The checked `q_n` returns the denominator exactly when every prefix's
      denominator fits in `u64`, and reports overflow otherwise. */
  lemma {:induction false} CheckedDenominatorExact(a: seq<u64>)
    ensures CheckedDenominator(a) ==
              if DenominatorsFit(a) then Some(Denominator(a)) else None
    decreases |a|
  {
    var n := |a|;
    if n == 0 {
      assert a[..0] == a;
    } else if n == 1 {
      DenominatorsFitExtend(a);
      assert a[..0] == [];
      assert DenominatorsFit(a[..0]);
    } else {
      var a1, a2 := a[..n - 1], a[..n - 2];
      assert a1[..n - 2] == a2;
      CheckedDenominatorExact(a1);
      CheckedDenominatorExact(a2);
      DenominatorsFitExtend(a);
      if DenominatorsFit(a1) {
        DenominatorsFitExtend(a1);
      }
    }
  }

  /** `find_convergents` returns `(p_n, q_n)` computed without bound exactly
      when no slice the recursion visits overflows `u64`; otherwise the
      source panics, here `None`. */
  lemma FindConvergentsExact(a: seq<u64>)
    ensures FindConvergents(a) ==
              if NumeratorsFit(a) && DenominatorsFit(a)
              then Some((Numerator(a), Denominator(a)))
              else None
  {
    CheckedNumeratorExact(a);
    CheckedDenominatorExact(a);
  }

  /** The base cases of both recurrences: `[] → 1/0` and `[x] → x/1`. */
  lemma ConvergentBaseCases(x: u64)
    ensures FindConvergents([]) == Some((1, 0))
    ensures FindConvergents([x]) == Some((x, 1))
  {
  }

  /** The iterative form of both recurrences: walk the coefficients front to
      back, carrying the last two numerators `(p2, p1)` and denominators
      `(q2, q1)`. */
  function ForwardPass(a: seq<u64>, p2: nat, p1: nat, q2: nat, q1: nat): (nat, nat)
    decreases |a|
  {
    if |a| == 0 then (p1, q1)
    else
      var x: nat := a[0];
      ForwardPass(a[1..], p1, x * p1 + p2, q1, x * q1 + q2)
  }

  /** The numerator and denominator of the prefix one longer than the
      first `k` coefficients, from those of the two shorter prefixes; the
      seeds `p_{-1} = 0` and `q_{-1} = 1` stand in for the prefix of length -1. */
  lemma PrefixStep(a: seq<u64>, k: nat)
    requires k < |a|
    ensures Numerator(a[..k + 1]) ==
              a[k] * Numerator(a[..k]) + (if k == 0 then 0 else Numerator(a[..k - 1]))
    ensures Denominator(a[..k + 1]) ==
              a[k] * Denominator(a[..k]) + (if k == 0 then 1 else Denominator(a[..k - 1]))
  {
    var b := a[..k + 1];
    if k == 0 {
      assert b == [a[0]];
    } else {
      assert b[..k] == a[..k] && b[..k - 1] == a[..k - 1];
    }
  }

  /** Resuming the forward pass after `k` coefficients, seeded with the
      values of the two preceding prefixes, finishes with the recursive
      numerator and denominator of the whole sequence. */
  lemma {:induction false} ForwardPassFrom(a: seq<u64>, k: nat)
    requires k <= |a|
    ensures ForwardPass(a[k..],
                        if k == 0 then 0 else Numerator(a[..k - 1]), Numerator(a[..k]),
                        if k == 0 then 1 else Denominator(a[..k - 1]), Denominator(a[..k]))
            == (Numerator(a), Denominator(a))
    decreases |a| - k
  {
    if k == |a| {
      assert a[..k] == a;
    } else {
      PrefixStep(a, k);
      assert a[k..][1..] == a[k + 1..];
      ForwardPassFrom(a, k + 1);
    }
  }

  /** The forward pass seeded with `(p_{-2}, p_{-1}) = (0, 1)` and
      `(q_{-2}, q_{-1}) = (1, 0)` computes the same pair as the recursions. */
  lemma ForwardPassMatchesRecursion(a: seq<u64>)
    ensures ForwardPass(a, 0, 1, 1, 0) == (Numerator(a), Denominator(a))
  {
    ForwardPassFrom(a, 0);
    assert a[0..] == a && a[..0] == [];
  }

  /** Prepending a coefficient `x`: p' = x·p + q and q' = p. */
  lemma {:induction false} FrontStep(x: u64, rest: seq<u64>)
    ensures Numerator([x] + rest) == x * Numerator(rest) + Denominator(rest)
    ensures Denominator([x] + rest) == Numerator(rest)
    decreases |rest|
  {
    var a := [x] + rest;
    var m := |rest|;
    if m == 0 {
      assert a == [x];
    } else if m == 1 {
      assert a[..1] == [x] && a[..0] == [];
    } else {
      var r1, r2 := rest[..m - 1], rest[..m - 2];
      assert a[..m] == [x] + r1;
      assert a[..m - 1] == [x] + r2;
      FrontStep(x, r1);
      FrontStep(x, r2);
      var y: nat := rest[m - 1];
      assert a[m] == y;
      FrontAlgebra(x, y, Numerator(r1), Denominator(r1), Numerator(r2), Denominator(r2),
                   Numerator(a), Denominator(a), Numerator(rest), Denominator(rest));
    }
  }

  /** The arithmetic of `FrontStep`'s inductive case. */
  lemma FrontAlgebra(x: int, y: int, n1: int, d1: int, n2: int, d2: int,
                     na: int, da: int, nr: int, dr: int)
    requires na == y * (x * n1 + d1) + (x * n2 + d2) && da == y * n1 + n2
    requires nr == y * n1 + n2 && dr == y * d1 + d2
    ensures na == x * nr + dr && da == nr
  {
    assert y * (x * n1 + d1) == x * (y * n1) + y * d1;
  }

  /** No coefficient after the first is zero. */
  predicate TailPositive(a: seq<u64>)
  {
    forall i :: 1 <= i < |a| ==> a[i] >= 1
  }

  /** The value of the finite continued fraction a0 + 1/(a1 + 1/(… + 1/ak)).
      It lies between a0 and a0 + 1. */
  function Value(a: seq<u64>): (v: real)
    requires |a| >= 1 && TailPositive(a)
    ensures a[0] as real <= v <= a[0] as real + 1.0
    decreases |a|
  {
    if |a| == 1 then a[0] as real
    else
      var rest := Value(a[1..]);
      a[0] as real + 1.0 / rest
  }

  /** The convergent is the value of the continued fraction: when no
      coefficient after the first is zero, q >= 1 and p/q equals
      a0 + 1/(a1 + 1/(… + 1/ak)). */
  lemma {:induction false} ConvergentValue(a: seq<u64>)
    requires |a| >= 1 && TailPositive(a)
    ensures Denominator(a) >= 1
    ensures Numerator(a) as real / Denominator(a) as real == Value(a)
    decreases |a|
  {
    if |a| > 1 {
      var x, rest := a[0], a[1..];
      assert a == [x] + rest;
      FrontStep(x, rest);
      ConvergentValue(rest);
      var p, q := Numerator(rest), Denominator(rest);
      ValueAlgebra(x, p, q, Value(rest));
    }
  }

  /** With q >= 1 and p/q = v >= 1: p >= 1 and (x·p + q)/p = x + 1/v. */
  lemma ValueAlgebra(x: nat, p: nat, q: nat, v: real)
    requires q >= 1 && p as real / q as real == v && v >= 1.0
    ensures p >= 1
    ensures (x * p + q) as real / p as real == x as real + 1.0 / v
  {
    var pr, qr := p as real, q as real;
    RatioBound(pr, qr, v);
    assert (x * p + q) as real == x as real * pr + qr;
    SplitQuotient(x as real, pr, qr, v);
  }

  /** A ratio p/q = v >= 1 with q >= 1 has p = v·q >= q. */
  lemma RatioBound(pr: real, qr: real, v: real)
    requires qr >= 1.0 && pr / qr == v && v >= 1.0
    ensures pr == v * qr && pr >= qr
  {
    assert pr == v * qr;
    assert v * qr >= 1.0 * qr;
  }

  /** (x·p + q)/p splits into x + q/p, and q/p = 1/v when p = v·q. */
  lemma SplitQuotient(xr: real, pr: real, qr: real, v: real)
    requires qr >= 1.0 && pr == v * qr && v >= 1.0
    ensures (xr * pr + qr) / pr == xr + 1.0 / v
  {
    assert pr > 0.0;
    assert (xr * pr + qr) / pr == xr + qr / pr;
    assert qr / pr == 1.0 / v;
  }

  /** The denominator never decreases as coefficients are appended, provided
      none after the first is zero. */
  lemma {:induction false} DenominatorGrows(a: seq<u64>, i: nat, j: nat)
    requires TailPositive(a) && i <= j <= |a|
    ensures Denominator(a[..i]) <= Denominator(a[..j])
    decreases j - i
  {
    if i < j {
      DenominatorGrows(a, i, j - 1);
      var b := a[..j];
      if j == 1 {
        assert b == [a[0]];
      } else {
        assert b[..j - 1] == a[..j - 1] && b[..j - 2] == a[..j - 2];
        var x: nat := a[j - 1];
        assert Denominator(b) == x * Denominator(a[..j - 1]) + Denominator(a[..j - 2]);
        ScaledSumBound(x, Denominator(a[..j - 1]), Denominator(a[..j - 2]));
      }
    }
  }

  /** Scaling by a positive integer and adding a natural number never
      decreases: x·d + e >= d. */
  lemma ScaledSumBound(x: nat, d: nat, e: nat)
    requires x >= 1
    ensures x * d + e >= d
  {
  }

  /** The numerator never decreases as coefficients are appended after the
      first, provided none of them is zero. */
  lemma {:induction false} NumeratorGrows(a: seq<u64>, i: nat, j: nat)
    requires TailPositive(a) && 1 <= i <= j <= |a|
    ensures Numerator(a[..i]) <= Numerator(a[..j])
    decreases j - i
  {
    if i < j {
      NumeratorGrows(a, i, j - 1);
      var b := a[..j];
      assert b[..j - 1] == a[..j - 1] && b[..j - 2] == a[..j - 2];
      var x: nat := a[j - 1];
      assert Numerator(b) == x * Numerator(a[..j - 1]) + Numerator(a[..j - 2]);
      ScaledSumBound(x, Numerator(a[..j - 1]), Numerator(a[..j - 2]));
    }
  }

  /** When no coefficient after the first is zero, the numerators and
      denominators of the prefixes never exceed the final ones: the recursion
      overflows `u64` only if the final convergent does. */
  lemma NoIntermediateOverflow(a: seq<u64>)
    requires |a| >= 1 && TailPositive(a)
    requires Numerator(a) <= U64Max && Denominator(a) <= U64Max
    ensures NumeratorsFit(a) && DenominatorsFit(a)
  {
    assert a[..|a|] == a;
    forall k | 0 <= k <= |a|
      ensures Numerator(a[..k]) <= U64Max && Denominator(a[..k]) <= U64Max
    {
      DenominatorGrows(a, k, |a|);
      if k >= 1 {
        NumeratorGrows(a, k, |a|);
      } else {
        assert a[..k] == [];
      }
    }
  }

  /** The determinant identity p_k·q_{k-1} − p_{k-1}·q_k = (−1)^(k+1), where
      k + 1 is the number of coefficients. */
  lemma {:induction false} Determinant(a: seq<u64>)
    requires |a| >= 1
    ensures Numerator(a) * Denominator(a[..|a| - 1]) - Numerator(a[..|a| - 1]) * Denominator(a)
              == if |a| % 2 == 0 then 1 else -1
    decreases |a|
  {
    var n := |a|;
    if n == 1 {
      assert a[..0] == [];
    } else {
      var a1, a2 := a[..n - 1], a[..n - 2];
      assert a1[..n - 2] == a2;
      Determinant(a1);
      var x: nat := a[n - 1];
      DeterminantAlgebra(x, Numerator(a1), Denominator(a1), Numerator(a2), Denominator(a2),
                         Numerator(a), Denominator(a));
    }
  }

  /** The arithmetic of `Determinant`'s inductive case. */
  lemma DeterminantAlgebra(x: int, p1: int, q1: int, p2: int, q2: int, p: int, q: int)
    requires p == x * p1 + p2 && q == x * q1 + q2
    ensures p * q1 - p1 * q == -(p1 * q2 - p2 * q1)
  {
    assert p * q1 == x * p1 * q1 + p2 * q1;
    assert p1 * q == x * p1 * q1 + p1 * q2;
  }

  /** The convergent is in lowest terms: the only positive common divisor of
      p and q is 1. */
  lemma LowestTerms(a: seq<u64>, d: nat)
    requires |a| >= 1 && d >= 1
    requires Numerator(a) % d == 0 && Denominator(a) % d == 0
    ensures d == 1
  {
    Determinant(a);
    var a1 := a[..|a| - 1];
    DivisorOfUnitCombination(Numerator(a), Denominator(a), Numerator(a1), Denominator(a1), d);
  }

  /** A common divisor d of p and q with p·q' − p'·q = ±1 is 1. */
  lemma DivisorOfUnitCombination(p: int, q: int, p': int, q': int, d: nat)
    requires d >= 1 && p % d == 0 && q % d == 0
    requires p * q' - p' * q == 1 || p * q' - p' * q == -1
    ensures d == 1
  {
    var k, m := p / d, q / d;
    assert p == d * k && q == d * m;
    var t := k * q' - p' * m;
    assert d * t == p * q' - p' * q by {
      assert p * q' == d * (k * q');
      assert p' * q == d * (p' * m);
    }
    if t >= 1 {
      assert d * t >= d;
    } else if t <= -1 {
      assert d * t + d <= 0;
    }
  }
}
