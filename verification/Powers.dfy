/** Powers of two, used for block sizes, depths and shifts. */
module Powers {

  function Pow2(n: nat): (r: nat)
    ensures r >= 1
  {
    if n == 0 then 1 else 2 * Pow2(n - 1)
  }

  lemma {:induction false} Pow2Add(a: nat, b: nat)
    ensures Pow2(a + b) == Pow2(a) * Pow2(b)
  {
    if a == 0 {
    } else {
      Pow2Add(a - 1, b);
      assert Pow2(a + b) == 2 * (Pow2(a - 1) * Pow2(b));
    }
  }

  lemma {:induction false} Pow2Monotonic(a: nat, b: nat)
    requires a <= b
    ensures Pow2(a) <= Pow2(b)
    decreases b - a
  {
    if a == b {
    } else {
      Pow2Monotonic(a, b - 1);
    }
  }

  /** A number lies between at most one pair of adjacent powers of two. */
  lemma {:induction false} Pow2Bracket(n: nat, a: nat, b: nat)
    requires Pow2(a) <= n < Pow2(a + 1)
    requires Pow2(b) <= n < Pow2(b + 1)
    ensures a == b
  {
    if a < b {
      Pow2Monotonic(a + 1, b);
    } else if b < a {
      Pow2Monotonic(b + 1, a);
    }
  }
}
