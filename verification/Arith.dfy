/** A maximum, and products and quotients by a node size. */
module Arith {

  function Max(a: nat, b: nat): (m: nat)
    ensures m >= a && m >= b && (m == a || m == b)
  {
    if a < b then b else a
  }

  /** The whole number of nodes of `ns` bytes that hold `n` bytes. */
  function CeilDiv(n: nat, ns: nat): nat
    requires ns > 0
  {
    (n + ns - 1) / ns
  }

  /** The whole number of nodes of `ns` bytes that fit in `n` bytes. */
  function FloorDiv(n: nat, ns: nat): nat
    requires ns > 0
  {
    n / ns
  }

  /** `n` bytes are a whole number of nodes. */
  predicate Whole(n: nat, ns: nat)
    requires ns > 0
  {
    n % ns == 0
  }

  lemma FloorBounds(n: nat, ns: nat)
    requires ns > 0
    ensures FloorDiv(n, ns) * ns <= n && (n >= ns ==> FloorDiv(n, ns) > 0)
  {
  }

  lemma {:induction false} MulMono(x: nat, y: nat, ns: nat)
    ensures x <= y ==> x * ns <= y * ns
    decreases y
  {
    if x < y {
      MulMono(x, y - 1, ns);
      assert y * ns == (y - 1) * ns + ns;
    }
  }

  /** A quotient is the one number whose multiple is reached but not passed. */
  lemma DivUnique(a: nat, q: nat, ns: nat)
    requires ns > 0 && q * ns <= a < q * ns + ns
    ensures a / ns == q
  {
    var d := a / ns;
    assert d * ns <= a < d * ns + ns by {
      assert a == d * ns + a % ns;
    }
    assert (d + 1) * ns == d * ns + ns && (q + 1) * ns == q * ns + ns;
    MulMono(d + 1, q, ns);
    MulMono(q + 1, d, ns);
  }

  /** `k` is the ceiling exactly when `k` nodes suffice and one fewer does not. */
  lemma CeilUnique(n: nat, k: nat, ns: nat)
    requires ns > 0 && k > 0 && (k - 1) * ns < n <= k * ns
    ensures CeilDiv(n, ns) == k
  {
    assert k * ns == (k - 1) * ns + ns;
    DivUnique(n + ns - 1, k, ns);
  }

  lemma CeilBounds(n: nat, ns: nat)
    requires ns > 0 && n > ns
    ensures var k := CeilDiv(n, ns); k >= 2 && (k - 1) * ns < n <= k * ns
  {
    var a := n + ns - 1;
    var k := a / ns;
    assert a == k * ns + a % ns;
    MulMono(k, 1, ns);
    assert k * ns == (k - 1) * ns + ns;
  }

  /** The floor is the ceiling for multiples and one less otherwise. */
  lemma FloorCeil(n: nat, ns: nat)
    requires ns > 0 && n > ns
    ensures 0 < FloorDiv(n, ns) <= CeilDiv(n, ns)
    ensures FloorDiv(n, ns) == CeilDiv(n, ns) <==> Whole(n, ns)
  {
    var q, r := n / ns, n % ns;
    assert n == q * ns + r;
    assert q == 0 ==> q * ns == 0;
    if r == 0 {
      assert q * ns == (q - 1) * ns + ns;
      CeilUnique(n, q, ns);
    } else {
      assert (q + 1) * ns == q * ns + ns;
      CeilUnique(n, q + 1, ns);
    }
  }
}
