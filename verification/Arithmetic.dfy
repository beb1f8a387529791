/** Facts about products and quotients that the solver does not find by itself. */
module Arithmetic {

  lemma MulSplit(a: nat, b: nat, t: nat)
    ensures (a + b) * t == a * t + b * t
    ensures a * t >= 0 && b * t >= 0
  {
  }

  lemma Multiples(d: int, m: int)
    requires m >= 0
    ensures d >= 1 ==> d * m >= m
    ensures d <= -1 ==> d * m <= -m
  {
  }

  /** A number is known by its quotient and remainder. */
  lemma DivUnique(n: int, m: int, q: int, r: int)
    requires m > 0 && n == q * m + r && 0 <= r < m
    ensures n / m == q && n % m == r
  {
    var q', r' := n / m, n % m;
    assert n == q' * m + r';
    assert (q' - q) * m == q' * m - q * m;
    Multiples(q' - q, m);
  }

  const U32: nat := 0x1_0000_0000
  const U64: nat := 0x1_0000_0000_0000_0000

  function Exp2(k: nat): (e: nat)
    ensures e >= 1
  {
    if k == 0 then 1 else 2 * Exp2(k - 1)
  }

  lemma {:induction false} Exp2Grows(a: nat, b: nat)
    requires a <= b
    ensures Exp2(a) <= Exp2(b)
  {
    if a < b {
      Exp2Grows(a, b - 1);
    }
  }

  lemma {:induction false} Exp2GrowsStrictly(a: nat, b: nat)
    requires a < b
    ensures 2 * Exp2(a) <= Exp2(b)
  {
    Exp2Grows(a + 1, b);
  }

  lemma {:induction false} Exp2Injective(a: nat, b: nat)
    requires Exp2(a) == Exp2(b)
    ensures a == b
  {
    if a < b {
      Exp2GrowsStrictly(a, b);
    } else if b < a {
      Exp2GrowsStrictly(b, a);
    }
  }

  lemma {:induction false} Exp2Sum(j: nat, k: nat)
    ensures Exp2(j + k) == Exp2(j) * Exp2(k)
  {
    if k > 0 {
      Exp2Sum(j, k - 1);
      assert Exp2(j) * (2 * Exp2(k - 1)) == 2 * (Exp2(j) * Exp2(k - 1));
    }
  }
}
