/**
 * Unsigned bitmask arithmetic on unbounded naturals.
 *
 * A juggling state is a bitmask whose bit 0 is the current beat. The Rust and
 * TypeScript code manipulate it with `>>`, `& 1`, `| (1 << p)` and
 * `count_ones`; this module gives each of those operations one definition on
 * `nat`, together with the facts about them that the rest of the model uses.
 */
module Bitmask {

  /** 2 to the power `k`, i.e. `1 << k` without any width limit. */
  function Pow2(k: nat): (r: nat)
    ensures r >= 1
  {
    if k == 0 then 1 else 2 * Pow2(k - 1)
  }

  /** Logical right shift `n >> k`. */
  function Shr(n: nat, k: nat): nat
  {
    QuotientNat(n, Pow2(k));
    n / Pow2(k)
  }

  /** `(n >> k) & 1`: 1 when bit `k` of `n` is set, 0 otherwise. */
  function Bit(n: nat, k: nat): nat
  {
    Shr(n, k) % 2
  }

  predicate IsSet(n: nat, k: nat)
  {
    Bit(n, k) == 1
  }

  /** `n | (1 << k)`. */
  function SetBit(n: nat, k: nat): nat
  {
    if IsSet(n, k) then n else n + Pow2(k)
  }

  /** Number of set bits (`count_ones`). */
  function Popcount(n: nat): nat
  {
    if n == 0 then 0 else n % 2 + Popcount(n / 2)
  }

  /** Number of set bits among positions `0 .. k-1`. */
  function CountBelow(n: nat, k: nat): nat
  {
    if k == 0 then 0 else CountBelow(n, k - 1) + Bit(n, k - 1)
  }

  /** The `k` lowest bits set: `(1 << k) - 1`. */
  function LowMask(k: nat): nat
  {
    Pow2(k) - 1
  }

  // ---------------------------------------------------------------------
  // Division and remainder by powers of two
  // ---------------------------------------------------------------------

  lemma MulAtLeast(a: int, d: int)
    requires a >= 1 && d > 0
    ensures a * d >= d
  {
  }

  /** Dividing a natural by a positive divisor gives a natural. */
  lemma QuotientNat(n: nat, d: nat)
    requires d >= 1
    ensures n / d >= 0
  {
    NegativeProduct(n / d, d);
  }

  lemma NegativeProduct(a: int, d: int)
    requires d > 0
    ensures a < 0 ==> a * d <= -d
  {
    if a < 0 {
      MulAtLeast(-a, d);
      assert a * d == -((-a) * d);
    }
  }

  lemma DivModUnique(n: int, d: int, q: int, r: int)
    requires d > 0 && 0 <= r < d && n == q * d + r
    ensures n / d == q && n % d == r
  {
    var q', r' := n / d, n % d;
    assert n == q' * d + r';
    assert (q' - q) * d == r - r';
    if q' > q {
      MulAtLeast(q' - q, d);
    } else if q > q' {
      MulAtLeast(q - q', d);
    }
  }

  /** Splitting a division by `2 * p` into a halving and a division by `p`. */
  lemma HalfSplit(n: nat, p: nat)
    requires p > 0
    ensures n / (2 * p) == (n / 2) / p
    ensures n % (2 * p) == 2 * ((n / 2) % p) + n % 2
  {
    var h, b := n / 2, n % 2;
    var q, r := h / p, h % p;
    assert n == 2 * h + b;
    assert h == q * p + r;
    assert n == q * (2 * p) + (2 * r + b);
    DivModUnique(n, 2 * p, q, 2 * r + b);
  }

  lemma Pow2Monotonic(a: nat, b: nat)
    requires a <= b
    ensures Pow2(a) <= Pow2(b)
  {
    if a < b {
      Pow2Monotonic(a, b - 1);
    }
  }

  lemma Pow2Add(a: nat, b: nat)
    ensures Pow2(a + b) == Pow2(a) * Pow2(b)
  {
    if b > 0 {
      Pow2Add(a, b - 1);
      assert Pow2(a + b) == 2 * Pow2(a + b - 1);
    }
  }

  lemma ShrSucc(n: nat, k: nat)
    ensures Shr(n, k + 1) == Shr(n / 2, k)
  {
    HalfSplit(n, Pow2(k));
  }

  /** Bit `k+1` of `n` is bit `k` of `n >> 1`. */
  lemma BitSucc(n: nat, k: nat)
    ensures Bit(n, k + 1) == Bit(n / 2, k)
  {
    ShrSucc(n, k);
  }

  /** `n >> k == 0` exactly when `n` fits in `k` bits. */
  lemma ShrZeroIff(n: nat, k: nat)
    ensures Shr(n, k) == 0 <==> n < Pow2(k)
  {
    var p := Pow2(k);
    if n < p {
      DivModUnique(n, p, 0, n);
    } else {
      assert n == (n / p) * p + n % p;
    }
  }

  /** A value below `2^k` has no bit set at or above `k`. */
  lemma BitAboveBound(n: nat, k: nat, j: nat)
    requires n < Pow2(k) && j >= k
    ensures Bit(n, j) == 0
  {
    Pow2Monotonic(k, j);
    DivModUnique(n, Pow2(j), 0, n);
  }

  /** A value below `2^(k+1)` halves to a value below `2^k`. */
  lemma HalfBound(n: nat, k: nat)
    requires n < Pow2(k + 1)
    ensures n / 2 < Pow2(k)
  {
  }

  /** Conversely, a value whose half is below `2^k` is below `2^(k+1)`. */
  lemma DoubleBound(n: nat, k: nat)
    requires n / 2 < Pow2(k)
    ensures n < Pow2(k + 1)
  {
  }

  /** Clearing the top bit of a `(k+1)`-bit value leaves a `k`-bit value. */
  lemma {:induction false} ClearTopBit(n: nat, k: nat)
    requires n < Pow2(k + 1) && Bit(n, k) == 0
    ensures n < Pow2(k)
    decreases k
  {
    if k > 0 {
      BitSucc(n, k - 1);
      ClearTopBit(n / 2, k - 1);
    }
  }

  /** A value of at most `m` bits with every bit in `k .. m-1` clear has at most `k` bits. */
  lemma {:induction false} BoundFromClearBits(n: nat, k: nat, m: nat)
    requires n < Pow2(m)
    requires forall j :: k <= j < m ==> Bit(n, j) == 0
    ensures n < Pow2(k)
    decreases m
  {
    if m > k {
      ClearTopBit(n, m - 1);
      BoundFromClearBits(n, k, m - 1);
    } else {
      Pow2Monotonic(m, k);
    }
  }

  /** The remainder modulo `2^(k+1)` is bit `k` worth `2^k` plus the remainder modulo `2^k`. */
  lemma ModPow2Succ(n: nat, k: nat)
    ensures n % Pow2(k + 1) == Bit(n, k) * Pow2(k) + n % Pow2(k)
  {
    var p := Pow2(k);
    var m := n / p;
    var q, b := m / 2, m % 2;
    assert n == m * p + n % p;
    assert m * p == q * (2 * p) + b * p by {
      assert m == 2 * q + b;
    }
    assert b * p <= p by {
      if b == 1 {} else { assert b == 0; }
    }
    DivModUnique(n, 2 * p, q, b * p + n % p);
  }

  /** With bit `k` clear, reducing modulo `2^(k+1)` or `2^k` gives the same remainder. */
  lemma ModPow2SuccClear(n: nat, k: nat)
    requires Bit(n, k) == 0
    ensures n % Pow2(k + 1) == n % Pow2(k)
  {
    ModPow2Succ(n, k);
  }

  /** With bit `k` set, the remainder modulo `2^(k+1)` is `2^k` more than modulo `2^k`. */
  lemma ModPow2SuccSet(n: nat, k: nat)
    requires Bit(n, k) == 1
    ensures n % Pow2(k + 1) == Pow2(k) + n % Pow2(k)
  {
    ModPow2Succ(n, k);
  }

  /** Bit `k` is set exactly when the remainder modulo `2^(k+1)` reaches `2^k`. */
  lemma BitFromRemainder(n: nat, k: nat)
    ensures IsSet(n, k) <==> n % Pow2(k + 1) >= Pow2(k)
  {
    ModPow2Succ(n, k);
  }

  lemma ModOfSmall(n: nat, k: nat)
    requires n < Pow2(k)
    ensures n % Pow2(k) == n
  {
    DivModUnique(n, Pow2(k), 0, n);
  }

  // ---------------------------------------------------------------------
  // Setting a bit
  // ---------------------------------------------------------------------

  /** Setting a clear bit `p` adds `2^p`; every other bit keeps its value. */
  lemma {:induction false} AddPow2Bits(x: nat, p: nat, j: nat)
    requires Bit(x, p) == 0
    ensures Bit(x + Pow2(p), j) == if j == p then 1 else Bit(x, j)
    decreases p
  {
    if p == 0 {
      if j > 0 {
        BitSucc(x + 1, j - 1);
        BitSucc(x, j - 1);
        assert (x + 1) / 2 == x / 2;
      }
    } else {
      BitSucc(x, p - 1);
      assert x + Pow2(p) == 2 * (x / 2 + Pow2(p - 1)) + x % 2;
      assert (x + Pow2(p)) / 2 == x / 2 + Pow2(p - 1);
      if j == 0 {
        assert (x + Pow2(p)) % 2 == x % 2;
      } else {
        BitSucc(x + Pow2(p), j - 1);
        BitSucc(x, j - 1);
        AddPow2Bits(x / 2, p - 1, j - 1);
      }
    }
  }

  lemma SetBitBits(x: nat, p: nat, j: nat)
    ensures Bit(SetBit(x, p), j) == if j == p then 1 else Bit(x, j)
  {
    if !IsSet(x, p) {
      AddPow2Bits(x, p, j);
    }
  }

  /** Setting a clear bit adds exactly one to the popcount. */
  lemma PopcountHalf(n: nat)
    ensures Popcount(n) == n % 2 + Popcount(n / 2)
  {
  }

  lemma {:induction false} PopcountAddPow2(x: nat, p: nat)
    requires Bit(x, p) == 0
    ensures Popcount(x + Pow2(p)) == Popcount(x) + 1
    decreases p
  {
    if p == 0 {
      PopcountAddOne(x);
    } else {
      BitSucc(x, p - 1);
      PopcountAddPow2(x / 2, p - 1);
      PopcountAddStep(x, p);
    }
  }

  lemma PopcountAddStep(x: nat, p: nat)
    requires p >= 1 && Popcount(x / 2 + Pow2(p - 1)) == Popcount(x / 2) + 1
    ensures Popcount(x + Pow2(p)) == Popcount(x) + 1
  {
    PopcountAddEven(x, Pow2(p - 1), Pow2(p));
  }

  /** Adding `v = 2q` adds `q` to the upper bits and leaves the lowest bit alone. */
  lemma PopcountAddEven(x: nat, q: nat, v: nat)
    requires v == 2 * q && Popcount(x / 2 + q) == Popcount(x / 2) + 1
    ensures Popcount(x + v) == Popcount(x) + 1
  {
    assert (x + v) / 2 == x / 2 + q;
    assert (x + v) % 2 == x % 2;
  }

  lemma PopcountAddOne(x: nat)
    requires Bit(x, 0) == 0
    ensures Popcount(x + Pow2(0)) == Popcount(x) + 1
  {
    assert Shr(x, 0) == x;
    assert (x + 1) / 2 == x / 2;
  }

  lemma PopcountSetBit(x: nat, p: nat)
    ensures Popcount(SetBit(x, p)) == Popcount(x) + (1 - Bit(x, p))
  {
    if !IsSet(x, p) {
      PopcountAddPow2(x, p);
    }
  }

  /** `x | (1 << p)` stays below `2^m` when `x` does and `p < m`. */
  lemma {:induction false} SetBitBound(x: nat, p: nat, m: nat)
    requires x < Pow2(m) && p < m
    ensures SetBit(x, p) < Pow2(m)
    decreases p
  {
    if !IsSet(x, p) {
      if p == 0 {
        assert x % 2 == 0;
      } else {
        BitSucc(x, p - 1);
        HalfBound(x, m - 1);
        SetBitBound(x / 2, p - 1, m - 1);
        assert SetBit(x / 2, p - 1) == x / 2 + Pow2(p - 1);
        assert x + Pow2(p) == 2 * (x / 2 + Pow2(p - 1)) + x % 2;
      }
    }
  }

  // ---------------------------------------------------------------------
  // Counting bits
  // ---------------------------------------------------------------------

  /** Peeling the lowest bit off a bounded count. */
  lemma {:induction false} CountBelowLow(n: nat, k: nat)
    ensures CountBelow(n, k + 1) == n % 2 + CountBelow(n / 2, k)
    decreases k
  {
    if k > 0 {
      CountBelowLow(n, k - 1);
      BitSucc(n, k - 1);
    }
  }

  /** Reducing modulo `2^(k+1)` keeps the low bit and reduces the half modulo `2^k`. */
  lemma ModHalf(n: nat, k: nat)
    ensures (n % Pow2(k + 1)) % 2 == n % 2
    ensures (n % Pow2(k + 1)) / 2 == (n / 2) % Pow2(k)
  {
    HalfSplit(n, Pow2(k));
  }

  /** The bits below `k` are those of `n mod 2^k`. */
  lemma {:induction false} CountBelowIsPopcountMod(n: nat, k: nat)
    ensures CountBelow(n, k) == Popcount(n % Pow2(k))
    decreases k
  {
    if k > 0 {
      var m := n % Pow2(k);
      ModHalf(n, k - 1);
      assert Popcount(m) == m % 2 + Popcount(m / 2);
      CountBelowIsPopcountMod(n / 2, k - 1);
      CountBelowLow(n, k - 1);
    }
  }

  /** For a value of at most `k` bits the bounded count is the popcount. */
  lemma CountBelowIsPopcount(n: nat, k: nat)
    requires n < Pow2(k)
    ensures CountBelow(n, k) == Popcount(n)
  {
    CountBelowIsPopcountMod(n, k);
    DivModUnique(n, Pow2(k), 0, n);
  }

  lemma {:induction false} CountBelowAtMost(n: nat, k: nat)
    ensures CountBelow(n, k) <= k
    decreases k
  {
    if k > 0 {
      CountBelowAtMost(n, k - 1);
    }
  }

  /** A value of at most `k` bits has popcount at most `k`. */
  lemma PopcountBound(n: nat, k: nat)
    requires n < Pow2(k)
    ensures Popcount(n) <= k
  {
    CountBelowIsPopcount(n, k);
    CountBelowAtMost(n, k);
  }

  /** The bounded count never exceeds the full popcount. */
  lemma {:induction false} CountBelowLePopcount(n: nat, k: nat)
    ensures CountBelow(n, k) <= Popcount(n)
    decreases k
  {
    if k > 0 {
      CountBelowLow(n, k - 1);
      CountBelowLePopcount(n / 2, k - 1);
    }
  }

  /** If every position below `k` is set, the popcount is at least `k`. */
  lemma {:induction false} AllSetBelow(n: nat, k: nat)
    requires forall j :: 0 <= j < k ==> Bit(n, j) == 1
    ensures Popcount(n) >= k
  {
    AllSetCount(n, k);
    CountBelowLePopcount(n, k);
  }

  lemma {:induction false} AllSetCount(n: nat, k: nat)
    requires forall j :: 0 <= j < k ==> Bit(n, j) == 1
    ensures CountBelow(n, k) == k
    decreases k
  {
    if k > 0 {
      AllSetCount(n, k - 1);
    }
  }

  /** The low mask has exactly `k` bits, all below `k`. */
  lemma {:induction false} LowMaskBits(k: nat)
    ensures Popcount(LowMask(k)) == k
    ensures LowMask(k) < Pow2(k)
    decreases k
  {
    if k > 0 {
      LowMaskBits(k - 1);
      assert LowMask(k) == 2 * LowMask(k - 1) + 1;
      assert LowMask(k) / 2 == LowMask(k - 1);
    }
  }
}
