/**
Commutative rings given by their operations, and vectors over them.

The ring is a value, so a proof about it can use nothing but the ring laws.  The laws are
quantified behind the predicate `LawsAt`: a proof instantiates them only at the elements it
names, which keeps the solver from expanding sums and products on its own.
 */
module Rings {

  datatype Ring<!T> = Ring(zero: T, one: T, add: (T, T) -> T, mul: (T, T) -> T, neg: T -> T)

  /** The laws of a commutative ring at three elements. */
  ghost predicate LawsAt<T>(R: Ring<T>, a: T, b: T, c: T) {
    && R.add(a, R.add(b, c)) == R.add(R.add(a, b), c)
    && R.add(a, b) == R.add(b, a)
    && R.add(a, R.zero) == a
    && R.add(a, R.neg(a)) == R.zero
    && R.mul(a, R.mul(b, c)) == R.mul(R.mul(a, b), c)
    && R.mul(a, b) == R.mul(b, a)
    && R.mul(a, R.one) == a
    && R.mul(a, R.add(b, c)) == R.add(R.mul(a, b), R.mul(a, c))
  }

  ghost predicate IsRing<T(!new)>(R: Ring<T>) {
    forall a, b, c :: LawsAt(R, a, b, c)
  }

  lemma AddAssoc<T(!new)>(R: Ring<T>, a: T, b: T, c: T)
    requires IsRing(R)
    ensures R.add(a, R.add(b, c)) == R.add(R.add(a, b), c)
  {
    assert LawsAt(R, a, b, c);
  }

  lemma AddComm<T(!new)>(R: Ring<T>, a: T, b: T)
    requires IsRing(R)
    ensures R.add(a, b) == R.add(b, a)
  {
    assert LawsAt(R, a, b, b);
  }

  lemma AddZero<T(!new)>(R: Ring<T>, a: T)
    requires IsRing(R)
    ensures R.add(a, R.zero) == a == R.add(R.zero, a)
  {
    assert LawsAt(R, a, R.zero, a);
  }

  lemma AddNeg<T(!new)>(R: Ring<T>, a: T)
    requires IsRing(R)
    ensures R.add(a, R.neg(a)) == R.zero == R.add(R.neg(a), a)
  {
    assert LawsAt(R, a, R.neg(a), a);
  }

  lemma MulAssoc<T(!new)>(R: Ring<T>, a: T, b: T, c: T)
    requires IsRing(R)
    ensures R.mul(a, R.mul(b, c)) == R.mul(R.mul(a, b), c)
  {
    assert LawsAt(R, a, b, c);
  }

  lemma MulComm<T(!new)>(R: Ring<T>, a: T, b: T)
    requires IsRing(R)
    ensures R.mul(a, b) == R.mul(b, a)
  {
    assert LawsAt(R, a, b, b);
  }

  lemma MulOne<T(!new)>(R: Ring<T>, a: T)
    requires IsRing(R)
    ensures R.mul(a, R.one) == a == R.mul(R.one, a)
  {
    assert LawsAt(R, a, R.one, a);
  }

  lemma MulAdd<T(!new)>(R: Ring<T>, a: T, b: T, c: T)
    requires IsRing(R)
    ensures R.mul(a, R.add(b, c)) == R.add(R.mul(a, b), R.mul(a, c))
    ensures R.mul(R.add(b, c), a) == R.add(R.mul(b, a), R.mul(c, a))
  {
    assert LawsAt(R, a, b, c);
    MulComm(R, a, R.add(b, c));
    MulComm(R, a, b);
    MulComm(R, a, c);
  }

  lemma MulZero<T(!new)>(R: Ring<T>, a: T)
    requires IsRing(R)
    ensures R.mul(a, R.zero) == R.zero == R.mul(R.zero, a)
  {
    var m := R.mul(a, R.zero);
    assert R.add(m, m) == m by {
      MulAdd(R, a, R.zero, R.zero);
      AddZero(R, R.zero);
    }
    calc {
      m;
      { AddZero(R, m); }
      R.add(m, R.zero);
      { AddNeg(R, m); }
      R.add(m, R.add(m, R.neg(m)));
      { AddAssoc(R, m, m, R.neg(m)); }
      R.add(m, R.neg(m));
      { AddNeg(R, m); }
      R.zero;
    }
    MulComm(R, a, R.zero);
  }

  /** Two pairs may be added crosswise. */
  lemma AddSwap<T(!new)>(R: Ring<T>, a: T, b: T, c: T, d: T)
    requires IsRing(R)
    ensures R.add(R.add(a, b), R.add(c, d)) == R.add(R.add(a, c), R.add(b, d))
  {
    calc {
      R.add(R.add(a, b), R.add(c, d));
      { AddAssoc(R, R.add(a, b), c, d); }
      R.add(R.add(R.add(a, b), c), d);
      { AddAssoc(R, a, b, c); AddComm(R, b, c); AddAssoc(R, a, c, b); }
      R.add(R.add(R.add(a, c), b), d);
      { AddAssoc(R, R.add(a, c), b, d); }
      R.add(R.add(a, c), R.add(b, d));
    }
  }

  // ----- Vectors

  type Vec<T> = seq<T>

  function VAdd<T>(R: Ring<T>, x: Vec<T>, y: Vec<T>): (z: Vec<T>)
    requires |x| == |y|
    ensures |z| == |x|
  {
    seq(|x|, i requires 0 <= i < |x| => R.add(x[i], y[i]))
  }

  function Scale<T>(R: Ring<T>, s: T, x: Vec<T>): (z: Vec<T>)
    ensures |z| == |x|
  {
    seq(|x|, i requires 0 <= i < |x| => R.mul(s, x[i]))
  }

  function Unit<T>(R: Ring<T>, n: nat, j: nat): (e: Vec<T>)
    ensures |e| == n
  {
    seq(n, i => if i == j then R.one else R.zero)
  }

  lemma VAddAssoc<T(!new)>(R: Ring<T>, x: Vec<T>, y: Vec<T>, z: Vec<T>)
    requires IsRing(R) && |x| == |y| == |z|
    ensures VAdd(R, x, VAdd(R, y, z)) == VAdd(R, VAdd(R, x, y), z)
  {
    forall i | 0 <= i < |x|
      ensures VAdd(R, x, VAdd(R, y, z))[i] == VAdd(R, VAdd(R, x, y), z)[i]
    {
      AddAssoc(R, x[i], y[i], z[i]);
    }
  }

  // ----- Linear maps

  /** L keeps the sum of x and y and the multiple of x by s, and has values of length m. */
  ghost predicate LinearAt<T>(R: Ring<T>, m: nat, L: Vec<T> -> Vec<T>, x: Vec<T>, y: Vec<T>, s: T)
    requires |x| == |y|
  {
    && |L(x)| == |L(y)| == m
    && L(VAdd(R, x, y)) == VAdd(R, L(x), L(y))
    && L(Scale(R, s, x)) == Scale(R, s, L(x))
  }

  /** L is a linear map from vectors of length n to vectors of length m. */
  ghost predicate Linear<T(!new)>(R: Ring<T>, n: nat, m: nat, L: Vec<T> -> Vec<T>) {
    forall x: Vec<T>, y: Vec<T>, s: T | |x| == |y| == n :: LinearAt(R, m, L, x, y, s)
  }

  /** The first k entries of x, then zeros. */
  function Prefix<T>(R: Ring<T>, x: Vec<T>, k: nat): Vec<T> {
    seq(|x|, i requires 0 <= i < |x| => if i < k then x[i] else R.zero)
  }

  lemma PrefixStep<T(!new)>(R: Ring<T>, x: Vec<T>, k: nat)
    requires IsRing(R) && k < |x|
    ensures Prefix(R, x, k + 1) == VAdd(R, Prefix(R, x, k), Scale(R, x[k], Unit(R, |x|, k)))
  {
    forall i | 0 <= i < |x|
      ensures Prefix(R, x, k + 1)[i] == VAdd(R, Prefix(R, x, k), Scale(R, x[k], Unit(R, |x|, k)))[i]
    {
      AddZero(R, x[i]);
      AddZero(R, R.zero);
      MulZero(R, x[k]);
      MulOne(R, x[k]);
    }
  }

  /** Linear maps that agree on the unit vectors agree everywhere. */
  lemma {:induction false} AgreeOnPrefix<T(!new)>(R: Ring<T>, n: nat, m: nat, F: Vec<T> -> Vec<T>, G: Vec<T> -> Vec<T>, x: Vec<T>, k: nat)
    requires IsRing(R) && Linear(R, n, m, F) && Linear(R, n, m, G)
    requires forall j: nat | j < n :: F(Unit(R, n, j)) == G(Unit(R, n, j))
    requires |x| == n && k <= n
    ensures F(Prefix(R, x, k)) == G(Prefix(R, x, k))
  {
    if k == 0 {
      var z := Scale(R, R.zero, x);
      assert Prefix(R, x, 0) == z by {
        forall i | 0 <= i < n ensures z[i] == R.zero { MulZero(R, x[i]); }
      }
      assert LinearAt(R, m, F, x, x, R.zero) && LinearAt(R, m, G, x, x, R.zero);
      forall i | 0 <= i < m ensures Scale(R, R.zero, F(x))[i] == Scale(R, R.zero, G(x))[i] {
        MulZero(R, F(x)[i]);
        MulZero(R, G(x)[i]);
      }
      assert F(z) == Scale(R, R.zero, F(x)) == Scale(R, R.zero, G(x)) == G(z);
    } else {
      AgreeOnPrefix(R, n, m, F, G, x, k - 1);
      PrefixStep(R, x, k - 1);
      var p, e := Prefix(R, x, k - 1), Unit(R, n, k - 1);
      var se := Scale(R, x[k - 1], e);
      assert LinearAt(R, m, F, p, se, R.zero) && LinearAt(R, m, G, p, se, R.zero);
      assert LinearAt(R, m, F, e, e, x[k - 1]) && LinearAt(R, m, G, e, e, x[k - 1]);
    }
  }

  lemma AgreeOnUnits<T(!new)>(R: Ring<T>, n: nat, m: nat, F: Vec<T> -> Vec<T>, G: Vec<T> -> Vec<T>, x: Vec<T>)
    requires IsRing(R) && Linear(R, n, m, F) && Linear(R, n, m, G)
    requires forall j: nat | j < n :: F(Unit(R, n, j)) == G(Unit(R, n, j))
    requires |x| == n
    ensures F(x) == G(x)
  {
    AgreeOnPrefix(R, n, m, F, G, x, n);
    assert Prefix(R, x, n) == x;
  }
}
