/** The two logarithm loops of include/lib/utils.h on unsigned 64-bit numbers. */
module Log2 {
  import opened Machine
  import opened Powers

  lemma {:induction false} MulMonotonic(a: int, b: int, p: nat)
    requires a <= b
    ensures a * p <= b * p
  {
  }

  /** Shifting one more bit out keeps the bracket around n. */
  lemma {:induction false} HalfStep(n: nat, m: nat, k: nat)
    requires m * Pow2(k) <= n < (m + 1) * Pow2(k)
    ensures (m / 2) * Pow2(k + 1) <= n < (m / 2 + 1) * Pow2(k + 1)
    ensures m == 1 ==> Pow2(k) <= n < Pow2(k + 1)
  {
    var p := Pow2(k);
    assert Pow2(k + 1) == 2 * p;
    assert (m / 2) * (2 * p) == (2 * (m / 2)) * p;
    assert (m / 2 + 1) * (2 * p) == (2 * (m / 2) + 2) * p;
    MulMonotonic(2 * (m / 2), m, p);
    MulMonotonic(m + 1, 2 * (m / 2) + 2, p);
  }

  /** log2: the floor of the binary logarithm; zero yields 0, not the documented all-ones value. */
  method FloorLog2(n: nat) returns (r: nat)
    requires n < U64
    ensures n > 0 ==> Pow2(r) <= n < Pow2(r + 1)
    ensures n == 0 ==> r == 0
  {
    var m, ret := n, 0;
    while true
      invariant ret == 0 ==> m == n
      invariant m * Pow2(ret) <= n < (m + 1) * Pow2(ret)
      invariant n == 0 || m > 0
      invariant ret > 0 ==> m > 0
      decreases m
    {
      HalfStep(n, m, ret);
      m := m / 2;
      ret := ret + 1;
      if m == 0 { break; }
    }
    r := ret - 1;
  }

  /** The bits shifted out so far are all zero exactly when n is a multiple of the power. */
  lemma {:induction false} HalfParity(n: nat, m: nat, k: nat)
    requires m * Pow2(k) <= n < (m + 1) * Pow2(k)
    ensures m % 2 == 0 ==> (n == m * Pow2(k) <==> n == (m / 2) * Pow2(k + 1))
    ensures m % 2 == 1 ==> n != (m / 2) * Pow2(k + 1)
    ensures m == 1 ==> m * Pow2(k) == Pow2(k)
  {
    var p := Pow2(k);
    assert (m / 2) * Pow2(k + 1) == (2 * (m / 2)) * p;
    if m % 2 == 1 {
      assert m == 2 * (m / 2) + 1;
      assert m * p == (2 * (m / 2)) * p + p;
    }
  }

  /** log2_ceil: the least r with n <= 2^r. */
  method CeilLog2(n: nat) returns (r: nat)
    requires n < U64
    ensures n > 0 ==> n <= Pow2(r) && forall q: nat :: n <= Pow2(q) ==> r <= q
    ensures n == 0 ==> r == 0
  {
    var m, ret, ones := n, 0, 0;
    while true
      invariant ret == 0 ==> m == n && ones == 0
      invariant m * Pow2(ret) <= n < (m + 1) * Pow2(ret)
      invariant ones == 0 <==> n == m * Pow2(ret)
      invariant n == 0 || m > 0
      invariant ret > 0 ==> m > 0
      decreases m
    {
      HalfStep(n, m, ret);
      HalfParity(n, m, ret);
      ghost var ones0 := ones;
      if m % 2 != 0 {
        ones := ones + 1;
      }
      m := m / 2;
      ret := ret + 1;
      if m == 0 {
        assert n > 0 ==> (ones0 == 0 <==> n == Pow2(ret - 1));
        break;
      }
    }
    r := if ones > 1 then ret else ret - 1;
    if n > 0 {
      forall q: nat | n <= Pow2(q)
        ensures r <= q
      {
        if q < r { Pow2Monotonic(q, r - 1); }
      }
    }
  }
}
