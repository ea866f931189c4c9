/**
 Block sizes of the growing allocator (src/allocator/growing_block_allocator.hpp).
 The next size is the current one, converted to a binary32 float, times two.
 */
module Growth {

  /** Significands of a binary32 float have 24 bits. */
  const SIGNIFICAND: nat := 0x100_0000

  function Pow2(k: nat): (r: nat)
    ensures r > 0
  {
    if k == 0 then 1 else 2 * Pow2(k - 1)
  }

  /** How far `n` must be shifted to fit in a significand. */
  function Exponent(n: nat): nat {
    if n < SIGNIFICAND then 0 else 1 + Exponent(n / 2)
  }

  function ShiftRight(n: nat, e: nat): nat {
    if e == 0 then n else ShiftRight(n / 2, e - 1)
  }

  /** The bits of `n` that fit in a significand, in place. */
  function Leading(n: nat): nat {
    ShiftRight(n, Exponent(n)) * Pow2(Exponent(n))
  }

  /** `n` as a binary32 float: rounded to the nearest representable number, ties to even. */
  function Float32(n: nat): nat
    ensures Float32(n) == n <==> Exact(n)
    ensures 2 * Float32(n) >= n
  {
    LeadingBounds(n, Exponent(n));
    LeadingHalf(n);
    var unit := Pow2(Exponent(n));
    var rest := n - Leading(n);
    if 2 * rest < unit || (2 * rest == unit && ShiftRight(n, Exponent(n)) % 2 == 0) then Leading(n)
    else Leading(n) + unit
  }

  /** `static_cast<std::size_t>(block_size_ * growth_factor())` with factor 2/1. */
  function NextSize(n: nat): nat {
    2 * Float32(n)
  }

  /** At most 24 significant bits. */
  predicate Exact(n: nat) {
    Leading(n) == n
  }

  lemma Twice(q: nat, u: nat)
    ensures q * (2 * u) == 2 * (q * u)
  {
  }

  lemma {:induction false} LeadingBounds(n: nat, e: nat)
    ensures ShiftRight(n, e) * Pow2(e) <= n < ShiftRight(n, e) * Pow2(e) + Pow2(e)
  {
    if e > 0 {
      LeadingBounds(n / 2, e - 1);
      Twice(ShiftRight(n, e), Pow2(e - 1));
    }
  }

  lemma {:induction false} ShiftPositive(n: nat)
    ensures n > 0 ==> ShiftRight(n, Exponent(n)) > 0
  {
    if n >= SIGNIFICAND {
      ShiftPositive(n / 2);
    }
  }

  /** The leading bits make up more than half of a number. */
  lemma LeadingHalf(n: nat)
    ensures 2 * Leading(n) >= n
  {
    LeadingBounds(n, Exponent(n));
    ShiftPositive(n);
    var q, u := ShiftRight(n, Exponent(n)), Pow2(Exponent(n));
    if n > 0 {
      assert q * u == (q - 1) * u + u;
    }
  }

  /** The size doubles exactly when it has at most 24 significant bits, and it never shrinks. */
  lemma NextSizeFacts(n: nat)
    ensures NextSize(n) == 2 * n <==> Exact(n)
    ensures NextSize(n) >= n
  {
    assert Float32(n) == n <==> Exact(n);
  }

  /** Doubling keeps a size exact. */
  lemma DoubleExact(n: nat)
    requires Exact(n)
    ensures Exact(2 * n)
  {
    if 2 * n >= SIGNIFICAND {
      var e := Exponent(n);
      assert (2 * n) / 2 == n;
      assert Exponent(2 * n) == 1 + e && ShiftRight(2 * n, 1 + e) == ShiftRight(n, e);
      Twice(ShiftRight(n, e), Pow2(e));
    }
  }

  function Sizes(first: nat, k: nat): nat {
    if k == 0 then first else NextSize(Sizes(first, k - 1))
  }

  /** A first size of at most 24 significant bits is doubled every time. */
  lemma {:induction false} SizesDouble(first: nat, k: nat)
    requires Exact(first)
    ensures Sizes(first, k) == first * Pow2(k) && Exact(Sizes(first, k))
  {
    if k > 0 {
      SizesDouble(first, k - 1);
      NextSizeFacts(Sizes(first, k - 1));
      DoubleExact(Sizes(first, k - 1));
      Twice(first, Pow2(k - 1));
    }
  }

  /** Up to 2^24 every size is doubled, and so is every such size times a power of two. */
  lemma {:induction false} ShortSizesDouble(n: nat, k: nat)
    requires n <= 16777216
    ensures Exact(n * Pow2(k)) && NextSize(n * Pow2(k)) == 2 * (n * Pow2(k))
    ensures k == 0 ==> NextSize(n) == 2 * n
  {
    if k == 0 {
      assert n * Pow2(0) == n;
      ShortExact(n);
    } else {
      ShortSizesDouble(n, k - 1);
      DoubleExact(n * Pow2(k - 1));
      Twice(n, Pow2(k - 1));
    }
    NextSizeFacts(n * Pow2(k));
  }

  lemma ShortExact(n: nat)
    requires n <= 16777216
    ensures Exact(n)
  {
    if n < 16777216 {
      assert Exponent(n) == 0 && ShiftRight(n, 0) == n && Pow2(0) == 1;
    } else {
      assert n / 2 == 8388608 && Exponent(8388608) == 0;
      assert Exponent(n) == 1 && ShiftRight(8388608, 0) == 8388608 && ShiftRight(n, 1) == 8388608;
      assert Pow2(1) == 2 * Pow2(0);
    }
  }

  /** How many of the leading bits there are. */
  lemma {:induction false} LeadingShort(n: nat)
    ensures ShiftRight(n, Exponent(n)) < 16777216
    ensures Exponent(n) > 0 ==> ShiftRight(n, Exponent(n)) >= 8388608
  {
    if n >= SIGNIFICAND {
      LeadingShort(n / 2);
      if Exponent(n / 2) == 0 {
        assert ShiftRight(n / 2, 0) == n / 2;
        assert ShiftRight(n, 1) == n / 2;
      }
    } else {
      assert ShiftRight(n, 0) == n;
    }
  }

  /** A 24-bit number times a power of two. */
  predicate Shifted(n: nat, m: nat, k: nat) {
    m < 16777216 && n == m * Pow2(k)
  }

  /** Those are exactly the exact sizes. */
  lemma ExactMeans(n: nat)
    ensures Exact(n) <==> exists m: nat, k: nat :: Shifted(n, m, k)
  {
    if Exact(n) {
      LeadingShort(n);
      assert Shifted(n, ShiftRight(n, Exponent(n)), Exponent(n));
    }
    if m: nat, k: nat :| Shifted(n, m, k) {
      ShortSizesDouble(m, k);
    }
  }

  function Distance(a: nat, b: nat): nat {
    if a < b then b - a else a - b
  }

  /** The float is an exact number, and no exact number is nearer. */
  lemma FloatIsNearest(n: nat, x: nat)
    requires Exact(x)
    ensures Exact(Float32(n)) && Distance(n, Float32(n)) <= Distance(n, x)
  {
    var q, e := ShiftRight(n, Exponent(n)), Exponent(n);
    LeadingShort(n);
    LeadingBounds(n, e);
    ShortSizesDouble(q, e);
    ShortSizesDouble(q + 1, e);
    NoneBetween(q, e, x);
    NextMultiple(q, Pow2(e));
    hide Exact, Pow2, ShiftRight, Exponent, NextSize;
    var lo, u := q * Pow2(e), Pow2(e);
    assert Leading(n) == lo;
    assert Float32(n) == lo ==> 2 * (n - lo) <= u;
    assert Float32(n) == lo || (Float32(n) == lo + u && 2 * (n - lo) >= u);
  }

  lemma NextMultiple(q: nat, u: nat)
    ensures (q + 1) * u == q * u + u
  {
  }

  /** Between neighbouring floats there is no exact number. */
  lemma NoneBetween(q: nat, e: nat, x: nat)
    requires Exact(x) && q < 16777216 && (e > 0 ==> q >= 8388608)
    ensures x <= q * Pow2(e) || x >= q * Pow2(e) + Pow2(e)
  {
    ExactMeans(x);
    var m: nat, k: nat :| Shifted(x, m, k);
    hide Exact, Pow2;
    if k >= e {
      Coarser(m, k, e, q);
    } else {
      Finer(m, k, e, q);
    }
  }

  lemma Coarser(m: nat, k: nat, e: nat, q: nat)
    requires k >= e
    ensures m * Pow2(k) <= q * Pow2(e) || m * Pow2(k) >= q * Pow2(e) + Pow2(e)
  {
    hide Pow2;
    PowerSplit(k - e, e);
    Associate(m, Pow2(k - e), Pow2(e));
    Multiples(m * Pow2(k - e), q, Pow2(e));
  }

  lemma Finer(m: nat, k: nat, e: nat, q: nat)
    requires k < e && m < 16777216 && q >= 8388608
    ensures m * Pow2(k) <= q * Pow2(e)
  {
    PowerSplit(k, e - k - 1);
    assert Pow2(e) == 2 * Pow2(e - 1);
    hide Pow2;
    Below(m, Pow2(k), Pow2(e - k - 1), q);
  }

  lemma Associate(a: nat, b: nat, c: nat)
    ensures a * (b * c) == a * b * c
  {
  }

  lemma Multiples(a: nat, q: nat, u: nat)
    ensures a * u <= q * u || a * u >= q * u + u
  {
    if a <= q {
      assert q * u == a * u + (q - a) * u;
    } else {
      assert a * u == q * u + u + (a - q - 1) * u;
    }
  }

  lemma Below(m: nat, p: nat, r: nat, q: nat)
    requires m < 16777216 && q >= 8388608 && r > 0
    ensures m * p <= q * (2 * (p * r))
  {
    var a := 2 * q * r;
    assert q * (2 * (p * r)) == a * p;
    assert a >= 16777216 by {
      assert a == 2 * q + 2 * q * (r - 1);
    }
    assert a * p == m * p + (a - m) * p;
  }

  lemma {:induction false} PowerSplit(a: nat, b: nat)
    ensures Pow2(a + b) == Pow2(a) * Pow2(b)
  {
    if b > 0 {
      PowerSplit(a, b - 1);
      assert Pow2(a + b) == 2 * Pow2(a + (b - 1));
      Twice(Pow2(a), Pow2(b - 1));
    }
  }

  /** The rounding is real: one block of 2^24 + 1 bytes is followed by one of 2^25; a tie goes to the even neighbour. */
  lemma RoundedSize()
    ensures NextSize(16777217) == 33554432 && NextSize(16777219) == 33554440
  {
    assert 16777217 / 2 == 8388608 && 16777219 / 2 == 8388609 && Exponent(8388608) == 0 && Exponent(8388609) == 0;
    assert Exponent(16777217) == 1 && Exponent(16777219) == 1;
    assert ShiftRight(8388608, 0) == 8388608 && ShiftRight(8388609, 0) == 8388609;
    assert ShiftRight(16777217, 1) == 8388608 && ShiftRight(16777219, 1) == 8388609;
    assert Pow2(1) == 2 * Pow2(0);
    assert Leading(16777217) == 16777216 && Leading(16777219) == 16777218;
  }
}
