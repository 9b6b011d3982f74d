/**
 * `combinations(n, k)` from the juggling-tools crate: the binomial
 * coefficient computed by the multiplicative formula with u64 saturating
 * multiplication, together with Pascal's rule as the reference definition.
 */
module Combinatorics {

  import Bitmask

  const U64_MAX: nat := 0xFFFF_FFFF_FFFF_FFFF

  /** The binomial coefficient by Pascal's rule. */
  function Binom(n: nat, k: nat): nat
  {
    if k == 0 then 1
    else if n == 0 then 0
    else Binom(n - 1, k - 1) + Binom(n - 1, k)
  }

  function Min(a: nat, b: nat): nat
  {
    if a <= b then a else b
  }

  /** `a.saturating_mul(b)` on u64. */
  function SaturatingMul(a: nat, b: nat): (r: nat)
    ensures r <= U64_MAX || r == a * b
    ensures a * b <= U64_MAX ==> r == a * b
    ensures a * b > U64_MAX ==> r == U64_MAX
  {
    if a * b > U64_MAX then U64_MAX else a * b
  }

  /** No step `i` in `from .. to-1` of the loop saturates when it starts from the exact value. */
  ghost predicate NoSaturation(n: nat, from: nat, to: nat)
  {
    forall i :: from <= i < to ==> Binom(n, i) * (n - i) <= U64_MAX
  }

  /**
   * Iterations `i .. k-1` of the loop `result = result.saturating_mul(n - i) / (i + 1)`.
   * Starting from the exact `C(n, i)` with no saturating step, every division
   * is exact and the loop ends at `C(n, k)`.
   */
  function MultiplyUp(n: nat, i: nat, k: nat, result: nat): (r: nat)
    requires i <= k <= n && result <= U64_MAX
    ensures r <= U64_MAX
    ensures result == Binom(n, i) && NoSaturation(n, i, k) ==> r == Binom(n, k)
    decreases k - i
  {
    if i == k then result
    else
      var next := SaturatingMul(result, n - i) / (i + 1);
      StepKeepsExact(n, i, k, result);
      MultiplyUp(n, i + 1, k, next)
  }

  /** One exact, non-saturating step moves from `C(n, i)` to `C(n, i+1)`. */
  lemma StepKeepsExact(n: nat, i: nat, k: nat, result: nat)
    requires i < k <= n
    ensures result == Binom(n, i) && NoSaturation(n, i, k) ==>
      SaturatingMul(result, n - i) / (i + 1) == Binom(n, i + 1) && NoSaturation(n, i + 1, k)
  {
    if result == Binom(n, i) && NoSaturation(n, i, k) {
      NextIsExact(n, i);
    }
  }

  /** `combinations(n, k)` for u64 arguments. */
  function Combinations(n: nat, k: nat): (r: nat)
    requires n <= U64_MAX && k <= U64_MAX
    ensures r <= U64_MAX
    ensures k > n ==> r == 0
    ensures k <= n && NoSaturation(n, 0, Min(k, n - k)) ==> r == Binom(n, k)
  {
    if k > n then 0
    else
      var k' := Min(k, n - k);
      BinomSymmetry(n, k);
      MultiplyUp(n, 0, k', 1)
  }

  lemma NextIsExact(n: nat, i: nat)
    requires i < n && Binom(n, i) * (n - i) <= U64_MAX
    ensures SaturatingMul(Binom(n, i), n - i) / (i + 1) == Binom(n, i + 1)
  {
    Absorption(n, i);
    DivExact(Binom(n, i + 1), i + 1);
  }

  lemma DivExact(a: nat, d: nat)
    requires d > 0
    ensures (d * a) / d == a
  {
    Bitmask.DivModUnique(d * a, d, a, 0);
  }

  lemma AbsorptionStep(n: int, i: int, a: int, b: int, c: int)
    requires (i + 1) * b == (n - 1 - i) * a
    requires i * a == (n - i) * c
    ensures (i + 1) * (a + b) == (n - i) * (c + a)
  {
    calc {
      (i + 1) * (a + b);
      (i + 1) * a + (i + 1) * b;
      (i + 1) * a + (n - 1 - i) * a;
      n * a;
      i * a + (n - i) * a;
      (n - i) * c + (n - i) * a;
      (n - i) * (c + a);
    }
  }

  /** `(i+1) C(n, i+1) = (n-i) C(n, i)`: the identity that makes each division exact. */
  lemma {:induction false} Absorption(n: nat, i: nat)
    ensures (i + 1) * Binom(n, i + 1) == (n - i) * Binom(n, i)
    decreases n
  {
    if n == 0 {
      assert Binom(0, i + 1) == 0;
      if i > 0 {
        assert Binom(0, i) == 0;
      }
    } else {
      var a, b := Binom(n - 1, i), Binom(n - 1, i + 1);
      Absorption(n - 1, i);
      assert Binom(n, i + 1) == a + b;
      if i == 0 {
        assert Binom(n - 1, 0) == 1;
      } else {
        var c := Binom(n - 1, i - 1);
        Absorption(n - 1, i - 1);
        assert Binom(n, i) == c + a;
        AbsorptionStep(n, i, a, b, c);
      }
    }
  }

  lemma {:induction false} BinomAbove(n: nat, k: nat)
    requires k > n
    ensures Binom(n, k) == 0
    decreases n
  {
    if n > 0 {
      BinomAbove(n - 1, k - 1);
      BinomAbove(n - 1, k);
    }
  }

  lemma {:induction false} BinomDiagonal(n: nat)
    ensures Binom(n, n) == 1
  {
    if n > 0 {
      BinomDiagonal(n - 1);
      BinomAbove(n - 1, n);
    }
  }

  lemma {:induction false} BinomPositive(n: nat, k: nat)
    requires k <= n
    ensures Binom(n, k) >= 1
    decreases n
  {
    if k > 0 {
      if k == n {
        BinomDiagonal(n);
      } else {
        BinomPositive(n - 1, k);
      }
    }
  }

  /** Pascal's triangle is symmetric: `C(n, k) = C(n, n-k)`. */
  lemma {:induction false} BinomSymmetry(n: nat, k: nat)
    requires k <= n
    ensures Binom(n, k) == Binom(n, n - k)
    decreases n
  {
    if k == 0 {
      BinomDiagonal(n);
    } else if k == n {
      BinomDiagonal(n);
    } else {
      BinomSymmetry(n - 1, k - 1);
      BinomSymmetry(n - 1, k);
      assert Binom(n, n - k) == Binom(n - 1, n - k - 1) + Binom(n - 1, n - k);
    }
  }

  /** The crate's test values of `combinations`, computed by the saturating loop. */
  lemma CombinationsKnownValues()
    ensures Combinations(5, 2) == 10 && Combinations(10, 3) == 120
    ensures Combinations(6, 3) == 20 && Combinations(4, 2) == 6
    ensures Combinations(5, 0) == 1 && Combinations(5, 5) == 1 && Combinations(3, 5) == 0
  {
    TenThree();
    SixThree();
    FiveTwo();
    FourTwo();
  }

  lemma TenThree()
    ensures Combinations(10, 3) == 120
  {
    assert SaturatingMul(45, 8) / 3 == 120;
    assert MultiplyUp(10, 2, 3, 45) == 120;
    assert SaturatingMul(10, 9) / 2 == 45;
    assert MultiplyUp(10, 1, 3, 10) == 120;
  }

  lemma SixThree()
    ensures Combinations(6, 3) == 20
  {
    assert SaturatingMul(15, 4) / 3 == 20;
    assert MultiplyUp(6, 2, 3, 15) == 20;
    assert SaturatingMul(6, 5) / 2 == 15;
    assert MultiplyUp(6, 1, 3, 6) == 20;
  }

  lemma FiveTwo()
    ensures Combinations(5, 2) == 10
  {
    assert SaturatingMul(5, 4) / 2 == 10;
    assert MultiplyUp(5, 1, 2, 5) == 10;
  }

  lemma FourTwo()
    ensures Combinations(4, 2) == 6
  {
    assert SaturatingMul(4, 3) / 2 == 6;
    assert MultiplyUp(4, 1, 2, 4) == 6;
  }

  /** `combinations` is symmetric for every u64 input, saturated or not. */
  lemma CombinationsSymmetric(n: nat, k: nat)
    requires n <= U64_MAX && k <= n
    ensures Combinations(n, k) == Combinations(n, n - k)
  {
  }

  /** The edge cases: `C(n, 0) = C(n, n) = 1` and `k > n` gives 0. */
  lemma CombinationsEdges(n: nat, k: nat)
    requires n <= U64_MAX && k <= U64_MAX
    ensures Combinations(n, 0) == 1 && Combinations(n, n) == 1
    ensures k > n ==> Combinations(n, k) == 0
  {
  }
}
