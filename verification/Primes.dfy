/**
Modular arithmetic and Fermat's little theorem, for the S-box x^5 of the permutation.
 */
module Primes {
  import opened Arithmetic

  // ----- Residues

  lemma ModShift(a: int, q: int, m: int)
    requires m > 0
    ensures (a + q * m) % m == a % m
  {
    var s := a / m;
    assert a == s * m + a % m;
    assert (s + q) * m == s * m + q * m;
    DivUnique(a + q * m, m, s + q, a % m);
  }

  lemma ModAdd(a: int, b: int, m: int)
    requires m > 0
    ensures (a % m + b) % m == (a + b) % m
  {
    var q := a / m;
    assert a == q * m + a % m;
    ModShift(a % m + b, q, m);
  }

  lemma ModMul(a: int, b: int, m: int)
    requires m > 0
    ensures (a % m * b) % m == (a * b) % m
  {
    var q := a / m;
    assert a == q * m + a % m;
    assert a * b == a % m * b + q * b * m;
    ModShift(a % m * b, q * b, m);
  }

  lemma ModMulBoth(a: int, b: int, m: int)
    requires m > 0
    ensures (a % m * (b % m)) % m == (a * b) % m
  {
    ModMul(a, b % m, m);
    ModMul(b, a, m);
  }

  lemma ModAddBoth(a: int, b: int, m: int)
    requires m > 0
    ensures (a % m + b % m) % m == (a + b) % m
  {
    ModAdd(a, b % m, m);
    ModAdd(b, a, m);
  }

  lemma Distribute(a: int, b: int, c: int)
    ensures a * (b + c) == a * b + a * c
  {
  }

  // The laws of a ring, for residues

  lemma ModAddAssoc(a: int, b: int, c: int, m: int)
    requires m > 0
    ensures (a + (b + c) % m) % m == ((a + b) % m + c) % m
  {
    var s, u := b + c, a + b;
    ModAdd(s, a, m);
    ModAdd(u, c, m);
    assert s + a == u + c;
  }

  lemma ModMulAssoc(a: int, b: int, c: int, m: int)
    requires m > 0
    ensures (a * ((b * c) % m)) % m == ((a * b) % m * c) % m
  {
    var x, y := b * c, a * b;
    ModMul(x, a, m);
    ModMul(y, c, m);
    assert x * a == y * c;
  }

  lemma ModProductOfSum(a: int, s: int, x: int, y: int, m: int)
    requires m > 0 && a * s == x + y
    ensures (a * (s % m)) % m == (x % m + y % m) % m
  {
    ModMul(s, a, m);
    ModAddBoth(x, y, m);
  }

  lemma ModDistribute(a: int, b: int, c: int, m: int)
    requires m > 0
    ensures (a * ((b + c) % m)) % m == ((a * b) % m + (a * c) % m) % m
  {
    Distribute(a, b, c);
    ModProductOfSum(a, b + c, a * b, a * c, m);
  }

  lemma MultipleIsZero(k: int, m: int)
    requires m > 0
    ensures (k * m) % m == 0
  {
    ModShift(0, k, m);
  }

  // ----- Powers

  function Pow(a: nat, n: nat): nat {
    if n == 0 then 1 else a * Pow(a, n - 1)
  }

  lemma {:induction false} PowAdd(a: nat, m: nat, n: nat)
    ensures Pow(a, m + n) == Pow(a, m) * Pow(a, n)
  {
    if m > 0 {
      PowAdd(a, m - 1, n);
      assert a * (Pow(a, m - 1) * Pow(a, n)) == a * Pow(a, m - 1) * Pow(a, n);
    }
  }

  lemma {:induction false} PowMul(a: nat, m: nat, n: nat)
    ensures Pow(a, m * n) == Pow(Pow(a, m), n)
  {
    if n == 0 {
      assert m * n == 0;
    } else {
      PowMul(a, m, n - 1);
      assert m * n == m + m * (n - 1);
      PowAdd(a, m, m * (n - 1));
    }
  }

  lemma ProductMod(a: nat, u: nat, v: nat, m: nat)
    requires m > 0 && u % m == v % m
    ensures (a % m * u) % m == (a * v) % m
  {
    var b := a % m;
    assert b % m == b by { DivUnique(b, m, 0, b); }
    ModMulBoth(b, u, m);
    ModMulBoth(a, v, m);
  }

  lemma {:induction false} PowMod(a: nat, n: nat, m: nat)
    requires m > 0
    ensures Pow(a % m, n) % m == Pow(a, n) % m
  {
    if n > 0 {
      var u, v := Pow(a % m, n - 1), Pow(a, n - 1);
      PowMod(a, n - 1, m);
      assert Pow(a % m, n) == a % m * u && Pow(a, n) == a * v;
      hide Pow;
      ProductMod(a, u, v, m);
    }
  }

  // ----- Primes

  ghost predicate IsPrime(p: nat) {
    p >= 2 && forall d: nat | 2 <= d < p :: p % d != 0
  }

  /** Euclid: a prime that divides a product of a smaller factor divides the other. */
  lemma {:induction false} Euclid(p: nat, a: nat, b: nat)
    requires IsPrime(p) && 0 < a < p && (a * b) % p == 0
    ensures b % p == 0
    decreases a
  {
    if a > 1 {
      var q, r := p / a, p % a;
      assert p == q * a + r;
      assert r * b == b * p + -(q * (a * b)) by {
        assert (q * a + r) * b == q * a * b + r * b;
      }
      var k := a * b / p;
      assert a * b == k * p;
      assert r * b == (b - q * k) * p by {
        assert q * (k * p) == q * k * p;
        assert (b - q * k) * p == b * p - q * k * p;
      }
      MultipleIsZero(b - q * k, p);
      Euclid(p, r, b);
    }
  }

  function Choose(n: nat, k: nat): nat {
    if k == 0 then 1 else if n == 0 then 0 else Choose(n - 1, k - 1) + Choose(n - 1, k)
  }

  lemma {:induction false} ChooseBeyond(n: nat, k: nat)
    requires k > n
    ensures Choose(n, k) == 0
  {
    if n > 0 {
      ChooseBeyond(n - 1, k - 1);
      ChooseBeyond(n - 1, k);
    }
  }

  lemma {:induction false} ChooseAll(n: nat)
    ensures Choose(n, n) == 1
  {
    if n > 0 {
      ChooseAll(n - 1);
      ChooseBeyond(n - 1, n);
    }
  }

  lemma AbsorbStep(n: int, k: int, x: int, w: int, y: int, z: int)
    requires x == z + y && k * w == (n - 1) * y && (k - 1) * x == (n - 1) * z
    ensures k * (x + w) == n * x
  {
    assert (n - 1) * (z + y) == (n - 1) * z + (n - 1) * y;
  }

  lemma {:induction false} ChooseAbsorb(n: nat, k: nat)
    requires n >= 1 && k >= 1
    ensures k * Choose(n, k) == n * Choose(n - 1, k - 1)
  {
    if n == 1 {
      if k == 1 {
        assert Choose(1, 1) == Choose(0, 0) + Choose(0, 1);
      } else {
        ChooseBeyond(1, k);
        ChooseBeyond(0, k - 1);
      }
    } else if k == 1 {
      ChooseAbsorb(n - 1, 1);
      assert Choose(n, 1) == Choose(n - 1, 0) + Choose(n - 1, 1);
    } else {
      ChooseAbsorb(n - 1, k);
      ChooseAbsorb(n - 1, k - 1);
      var x, y, z := Choose(n - 1, k - 1), Choose(n - 2, k - 1), Choose(n - 2, k - 2);
      assert Choose(n, k) == x + Choose(n - 1, k) && x == z + y;
      AbsorbStep(n, k, x, Choose(n - 1, k), y, z);
    }
  }

  lemma ChooseDivisible(p: nat, k: nat)
    requires IsPrime(p) && 0 < k < p
    ensures Choose(p, k) % p == 0
  {
    ChooseAbsorb(p, k);
    var c, d := Choose(p, k), Choose(p - 1, k - 1);
    hide Choose;
    MultipleIsZero(d, p);
    assert k * c == d * p;
    Euclid(p, k, c);
  }

  /** The terms 0..k of the expansion of (x + 1)^n. */
  function Terms(x: nat, n: nat, k: nat): nat {
    Choose(n, k) * Pow(x, k) + if k == 0 then 0 else Terms(x, n, k - 1)
  }

  lemma TermsUnfold(x: nat, n: nat, k: nat)
    ensures Terms(x, n, 0) == 1
    ensures k >= 1 ==> Terms(x, n, k) == Choose(n, k) * Pow(x, k) + Terms(x, n, k - 1)
  {
    assert Terms(x, n, 0) == Choose(n, 0) * Pow(x, 0);
  }

  lemma PascalTerm(c: int, d: int, x: int, w: int, a: int, b: int, e: int)
    requires a == b + x * e
    ensures (c + d) * (x * w) + a == d * (x * w) + b + x * (c * w + e)
  {
    assert (c + d) * (x * w) == c * (x * w) + d * (x * w);
    assert c * (x * w) == x * (c * w);
    assert x * (c * w + e) == x * (c * w) + x * e;
  }

  lemma {:induction false} TermsStep(x: nat, n: nat, k: nat)
    requires k >= 1
    ensures Terms(x, n + 1, k) == Terms(x, n, k) + x * Terms(x, n, k - 1)
  {
    var c, d, w := Choose(n, k - 1), Choose(n, k), Pow(x, k - 1);
    assert Choose(n + 1, k) == c + d && Pow(x, k) == x * w;
    hide Choose, Pow, Terms;
    TermsUnfold(x, n + 1, k);
    TermsUnfold(x, n, k);
    TermsUnfold(x, n, k - 1);
    if k == 1 {
      assert c * w == 1 by { ChooseNone(x, n); }
      PascalTerm(c, d, x, w, 1, 1, 0);
    } else {
      TermsStep(x, n, k - 1);
      PascalTerm(c, d, x, w, Terms(x, n + 1, k - 1), Terms(x, n, k - 1), Terms(x, n, k - 2));
    }
  }

  lemma ChooseNone(x: nat, n: nat)
    ensures Choose(n, 0) * Pow(x, 0) == 1
  {
  }

  lemma {:induction false} Binomial(x: nat, n: nat)
    ensures Pow(x + 1, n) == Terms(x, n, n)
  {
    if n > 0 {
      Binomial(x, n - 1);
      TermsStep(x, n - 1, n);
      ChooseBeyond(n - 1, n);
      var t := Terms(x, n - 1, n - 1);
      assert Terms(x, n - 1, n) == 0 * Pow(x, n) + t;
      assert Pow(x + 1, n) == (x + 1) * Pow(x + 1, n - 1);
      hide Pow, Terms, Choose;
      MulSplit(x, 1, t);
    } else {
      assert Terms(x, 0, 0) == 1 * Pow(x, 0);
    }
  }

  lemma DropMultiple(c: nat, w: nat, m: nat, p: nat)
    requires p > 0 && c % p == 0
    ensures (c * w + m) % p == m % p
  {
    var q := c / p;
    assert c == q * p;
    assert c * w == q * w * p;
    ModShift(m, q * w, p);
  }

  lemma {:induction false} MiddleTermsVanish(x: nat, p: nat, k: nat)
    requires IsPrime(p) && k < p
    ensures Terms(x, p, k) % p == 1
  {
    assert p >= 2;
    hide IsPrime, Terms, Choose, Pow;
    TermsUnfold(x, p, k);
    if k == 0 {
      DivUnique(1, p, 0, 1);
    } else {
      MiddleTermsVanish(x, p, k - 1);
      ChooseDivisible(p, k);
      DropMultiple(Choose(p, k), Pow(x, k), Terms(x, p, k - 1), p);
    }
  }

  /** Fermat's little theorem. */
  lemma {:induction false} Fermat(x: nat, p: nat)
    requires IsPrime(p)
    ensures Pow(x, p) % p == x % p
  {
    if x > 0 {
      Fermat(x - 1, p);
      Binomial(x - 1, p);
      ChooseAll(p);
      MiddleTermsVanish(x - 1, p, p - 1);
      var w, m := Pow(x - 1, p), Terms(x - 1, p, p - 1);
      assert Pow(x, p) == w + m;
      ModAdd(w, m, p);
      ModAdd(m, w % p, p);
      ModAdd(x - 1, 1, p);
      ModAdd(w, 1, p);
    }
  }

  lemma FifthPower(a: nat)
    ensures Pow(a, 5) == a * a * (a * a) * a
  {
    assert Pow(a, 1) == a * 1;
    assert Pow(a, 2) == a * a;
    assert Pow(a, 3) == a * (a * a);
    var s := a * a;
    assert Pow(a, 4) == a * (a * s) == s * s;
  }

  /** Squaring twice and multiplying once, reducing at every step. */
  lemma FifthPowerMod(a: nat, m: nat)
    requires m > 0
    ensures (a * (((a * a) % m * ((a * a) % m)) % m)) % m == Pow(a, 5) % m
  {
    FifthPower(a);
    hide Pow;
    var s := a * a;
    ModMulBoth(s, s, m);
    ModMul(s * s, a, m);
  }

  lemma {:induction false} PowCycle(a: nat, p: nat, k: nat)
    requires IsPrime(p)
    ensures Pow(a, 1 + k * (p - 1)) % p == a % p
  {
    if k == 0 {
      assert k * (p - 1) == 0;
    } else {
      var e := 1 + (k - 1) * (p - 1);
      PowCycle(a, p, k - 1);
      assert 1 + k * (p - 1) == e + (p - 1);
      PowAdd(a, e, p - 1);
      ModMul(Pow(a, e), Pow(a, p - 1), p);
      ModMul(a, Pow(a, p - 1), p);
      Fermat(a, p);
    }
  }

  /** Raising to the power e is undone by raising to d when e d is 1 modulo p - 1. */
  lemma PowersUndo(a: nat, p: nat, e: nat, d: nat, k: nat)
    requires IsPrime(p) && a < p && e * d == 1 + k * (p - 1)
    ensures Pow(Pow(a, e) % p, d) % p == a
  {
    assert p >= 2;
    hide Pow, IsPrime;
    DivUnique(a, p, 0, a);
    PowMod(Pow(a, e), d, p);
    PowMul(a, e, d);
    PowCycle(a, p, k);
  }
}
