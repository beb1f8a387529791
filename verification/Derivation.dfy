/**
Optimised tables for any cipher whose dense matrix M, and whose lower-right block of M, are
invertible (Appendix B of "Poseidon: A New Hash Function for Zero-Knowledge Proof Systems").
The derived tables factor the cipher, so the fast permutation exists for every such cipher.
 */
module Derivation {
  import opened Rings
  import opened Matrices
  import opened Poseidon
  import opened Textbook

  /** The lower-right block of the dense matrix, as a map. */
  function Hat<T>(R: Ring<T>, C: Cipher<T>, z: Vec<T>): (y: Vec<T>)
    requires C.Valid() && |z| == C.t - 1
    ensures |y| == C.t - 1
  {
    Apply(R, C.t, C.mds, [R.zero] + z)[1..]
  }

  function HatN<T>(R: Ring<T>, C: Cipher<T>, n: nat, z: Vec<T>): (y: Vec<T>)
    requires C.Valid() && |z| == C.t - 1
    ensures |y| == C.t - 1
  {
    if n == 0 then z else Hat(R, C, HatN(R, C, n - 1, z))
  }

  function UnhatN<T>(R: Ring<T>, C: Cipher<T>, Q: seq<T>, n: nat, z: Vec<T>): (y: Vec<T>)
    requires C.Valid() && |z| == C.t - 1 && |Q| == (C.t - 1) * (C.t - 1)
    ensures |y| == C.t - 1
  {
    if n == 0 then z else Apply(R, C.t - 1, Q, UnhatN(R, C, Q, n - 1, z))
  }

  /** Minv and Q undo the dense matrix and its lower-right block, on either side. */
  ghost predicate Inverses<T(!new)>(R: Ring<T>, C: Cipher<T>, Minv: seq<T>, Q: seq<T>) {
    && C.Valid()
    && |Q| == (C.t - 1) * (C.t - 1)
    && InverseMatrix(R, C.t, C.mds, Minv)
    && (forall z: Vec<T> {:trigger HatInverseAt(R, C, Q, z)} | |z| == C.t - 1 :: HatInverseAt(R, C, Q, z))
  }

  ghost predicate HatInverseAt<T>(R: Ring<T>, C: Cipher<T>, Q: seq<T>, z: Vec<T>)
    requires C.Valid() && |Q| == (C.t - 1) * (C.t - 1) && |z| == C.t - 1
  {
    && Hat(R, C, Apply(R, C.t - 1, Q, z)) == z
    && Apply(R, C.t - 1, Q, Hat(R, C, z)) == z
  }

  /** The block matrix [1 0; 0 hat^n], and its inverse. */
  function D<T>(R: Ring<T>, C: Cipher<T>, n: nat, x: Vec<T>): (y: Vec<T>)
    requires C.Valid() && |x| == C.t
    ensures |y| == C.t
  {
    [x[0]] + HatN(R, C, n, x[1..])
  }

  function E<T>(R: Ring<T>, C: Cipher<T>, Q: seq<T>, n: nat, x: Vec<T>): (y: Vec<T>)
    requires C.Valid() && |x| == C.t && |Q| == (C.t - 1) * (C.t - 1)
    ensures |y| == C.t
  {
    [x[0]] + UnhatN(R, C, Q, n, x[1..])
  }

  /** The dense matrix seen between two block matrices: sparse, as `SparseIsG` shows. */
  function G<T>(R: Ring<T>, C: Cipher<T>, Q: seq<T>, n: nat, y: Vec<T>): (z: Vec<T>)
    requires C.Valid() && |y| == C.t && |Q| == (C.t - 1) * (C.t - 1) && n >= 1
    ensures |z| == C.t
  {
    D(R, C, n - 1, Apply(R, C.t, C.mds, E(R, C, Q, n, y)))
  }

  // ----- The derived tables

  function JoinMap<T>(R: Ring<T>, C: Cipher<T>): Vec<T> -> Vec<T>
    requires C.Valid()
  {
    x => if |x| == C.t then D(R, C, C.rp, Apply(R, C.t, C.mds, x)) else x
  }

  function HatMap<T>(R: Ring<T>, C: Cipher<T>, n: nat): Vec<T> -> Vec<T>
    requires C.Valid()
  {
    z => if |z| == C.t - 1 then HatN(R, C, n, z) else z
  }

  function RowOf<T>(R: Ring<T>, C: Cipher<T>, Q: seq<T>, n: nat): (row: Vec<T>)
    requires C.Valid() && |Q| == (C.t - 1) * (C.t - 1) && n >= 1
    ensures |row| == C.t
  {
    seq(C.t, j requires 0 <= j < C.t => G(R, C, Q, n, Unit(R, C.t, j))[0])
  }

  function ColOf<T>(R: Ring<T>, C: Cipher<T>, Q: seq<T>, n: nat): (col: Vec<T>)
    requires C.Valid() && |Q| == (C.t - 1) * (C.t - 1) && n >= 1
    ensures |col| == C.t - 1
  {
    G(R, C, Q, n, Unit(R, C.t, 0))[1..]
  }

  /** Constants in transit before partial round r. */
  function W<T>(R: Ring<T>, C: Cipher<T>, Minv: seq<T>, Q: seq<T>, r: nat): (w: Vec<T>)
    requires C.Valid() && |Minv| == C.t * C.t && |Q| == (C.t - 1) * (C.t - 1) && r <= C.rp
    ensures |w| == C.t && w[0] == R.zero
    decreases C.rp - r, 1
  {
    if r == C.rp then seq(C.t, _ => R.zero) else Z(R, C, Minv, Q, r)[0 := R.zero]
  }

  /** The constant of partial round r, followed by the constants left in transit before it. */
  function Z<T>(R: Ring<T>, C: Cipher<T>, Minv: seq<T>, Q: seq<T>, r: nat): (z: Vec<T>)
    requires C.Valid() && |Minv| == C.t * C.t && |Q| == (C.t - 1) * (C.t - 1) && r < C.rp
    ensures |z| == C.t
    decreases C.rp - r, 0
  {
    var later := E(R, C, Q, C.rp - r - 1, W(R, C, Minv, Q, r + 1));
    D(R, C, C.rp - r, Apply(R, C.t, Minv, VAdd(R, C.c[C.half + r + 1], later)))
  }

  function EarlyTable<T>(R: Ring<T>, C: Cipher<T>, Minv: seq<T>, Q: seq<T>, r: nat): (k: Vec<T>)
    requires C.Valid() && |Minv| == C.t * C.t && |Q| == (C.t - 1) * (C.t - 1) && r <= C.half
    ensures |k| == C.t
  {
    if r == 0 then C.c[0]
    else if r < C.half then Apply(R, C.t, Minv, C.c[r])
    else Apply(R, C.t, Minv, VAdd(R, C.c[C.half], E(R, C, Q, C.rp, W(R, C, Minv, Q, 0))))
  }

  function JoinTable<T>(R: Ring<T>, C: Cipher<T>): (N: seq<T>)
    requires C.Valid()
    ensures |N| == C.t * C.t
  {
    Tabulate(R, C.t, JoinMap(R, C))
  }

  function HatTable<T>(R: Ring<T>, C: Cipher<T>, n: nat): (N: seq<T>)
    requires C.Valid()
    ensures |N| == (C.t - 1) * (C.t - 1)
  {
    Tabulate(R, C.t - 1, HatMap(R, C, n))
  }

  function Derived<T>(R: Ring<T>, C: Cipher<T>, Minv: seq<T>, Q: seq<T>): (P: Tables<T>)
    requires C.Valid() && |Minv| == C.t * C.t && |Q| == (C.t - 1) * (C.t - 1)
  {
    Tables(C.t,
      seq(C.half + 1, r requires 0 <= r <= C.half => EarlyTable(R, C, Minv, Q, r)),
      seq(C.rp, r requires 0 <= r < C.rp => Z(R, C, Minv, Q, r)[0]),
      seq(C.half - 1, r requires 0 <= r < C.half - 1 => Apply(R, C.t, Minv, C.c[C.half + C.rp + 1 + r])),
      C.mds,
      JoinTable(R, C),
      seq(C.rp, r requires 0 <= r < C.rp => RowOf(R, C, Q, C.rp - r)),
      seq(C.rp, r requires 0 <= r < C.rp => ColOf(R, C, Q, C.rp - r)))
  }

  lemma DerivedShapes<T>(R: Ring<T>, C: Cipher<T>, Minv: seq<T>, Q: seq<T>)
    requires C.Valid() && |Minv| == C.t * C.t && |Q| == (C.t - 1) * (C.t - 1)
    ensures Shapes(C, Derived(R, C, Minv, Q), DerivedFactors(R, C, Minv, Q))
  {
    hide EarlyTable, Z, W, Apply, RowOf, ColOf, JoinTable, HatTable;
    var P, F := Derived(R, C, Minv, Q), DerivedFactors(R, C, Minv, Q);
    forall r | 0 <= r < C.half - 1 ensures |P.late[r]| == C.t {
      assert P.late[r] == Apply(R, C.t, Minv, C.c[C.half + C.rp + 1 + r]);
    }
    forall r | 0 <= r < C.rp ensures |P.rows[r]| == C.t && |P.cols[r]| == C.t - 1 {
      assert P.rows[r] == RowOf(R, C, Q, C.rp - r) && P.cols[r] == ColOf(R, C, Q, C.rp - r);
    }
    forall r | 0 <= r <= C.rp ensures |F.N[r]| == (C.t - 1) * (C.t - 1) && |F.w[r]| == C.t {
      assert F.N[r] == HatTable(R, C, C.rp - r) && F.w[r] == W(R, C, Minv, Q, r);
    }
  }

  function DerivedFactors<T>(R: Ring<T>, C: Cipher<T>, Minv: seq<T>, Q: seq<T>): (F: Factors<T>)
    requires C.Valid() && |Minv| == C.t * C.t && |Q| == (C.t - 1) * (C.t - 1)
  {
    Factors(
      seq(C.rp + 1, r requires 0 <= r <= C.rp => HatTable(R, C, C.rp - r)),
      seq(C.rp + 1, r requires 0 <= r <= C.rp => W(R, C, Minv, Q, r)))
  }

  // ----- Linearity

  lemma HatLinearAt<T(!new)>(R: Ring<T>, C: Cipher<T>, x: Vec<T>, y: Vec<T>, s: T)
    requires IsRing(R) && C.Valid() && |x| == |y| == C.t - 1
    ensures Hat(R, C, VAdd(R, x, y)) == VAdd(R, Hat(R, C, x), Hat(R, C, y))
    ensures Hat(R, C, Scale(R, s, x)) == Scale(R, s, Hat(R, C, x))
  {
    hide Apply;
    AddZero(R, R.zero);
    MulZero(R, s);
    var zx, zy := [R.zero] + x, [R.zero] + y;
    assert [R.zero] + VAdd(R, x, y) == VAdd(R, zx, zy);
    assert [R.zero] + Scale(R, s, x) == Scale(R, s, zx);
    ApplyAdd(R, C.t, C.mds, zx, zy);
    ApplyScale(R, C.t, C.mds, s, zx);
  }

  lemma {:induction false} HatNLinear<T(!new)>(R: Ring<T>, C: Cipher<T>, n: nat)
    requires IsRing(R) && C.Valid()
    ensures Linear(R, C.t - 1, C.t - 1, HatMap(R, C, n))
  {
    hide Hat, Apply;
    var m := C.t - 1;
    if n > 0 {
      HatNLinear(R, C, n - 1);
      forall x: Vec<T>, y: Vec<T>, s: T | |x| == |y| == m
        ensures LinearAt(R, m, HatMap(R, C, n), x, y, s)
      {
        assert LinearAt(R, C.t - 1, HatMap(R, C, n - 1), x, y, s);
        HatLinearAt(R, C, HatN(R, C, n - 1, x), HatN(R, C, n - 1, y), s);
      }
    } else {
      forall x: Vec<T>, y: Vec<T>, s: T | |x| == |y| == m
        ensures LinearAt(R, m, HatMap(R, C, 0), x, y, s)
      {
      }
    }
  }

  function UnhatMap<T>(R: Ring<T>, C: Cipher<T>, Q: seq<T>, n: nat): Vec<T> -> Vec<T>
    requires C.Valid() && |Q| == (C.t - 1) * (C.t - 1)
  {
    z => if |z| == C.t - 1 then UnhatN(R, C, Q, n, z) else z
  }

  lemma {:induction false} UnhatNLinear<T(!new)>(R: Ring<T>, C: Cipher<T>, Q: seq<T>, n: nat)
    requires IsRing(R) && C.Valid() && |Q| == (C.t - 1) * (C.t - 1)
    ensures Linear(R, C.t - 1, C.t - 1, UnhatMap(R, C, Q, n))
  {
    hide Apply;
    var m := C.t - 1;
    if n > 0 {
      UnhatNLinear(R, C, Q, n - 1);
      forall x: Vec<T>, y: Vec<T>, s: T | |x| == |y| == m
        ensures LinearAt(R, m, UnhatMap(R, C, Q, n), x, y, s)
      {
        assert LinearAt(R, C.t - 1, UnhatMap(R, C, Q, n - 1), x, y, s);
        var u, v := UnhatN(R, C, Q, n - 1, x), UnhatN(R, C, Q, n - 1, y);
        ApplyAdd(R, C.t - 1, Q, u, v);
        ApplyScale(R, C.t - 1, Q, s, u);
      }
    } else {
      forall x: Vec<T>, y: Vec<T>, s: T | |x| == |y| == m
        ensures LinearAt(R, m, UnhatMap(R, C, Q, 0), x, y, s)
      {
      }
    }
  }

  lemma DLinearAt<T(!new)>(R: Ring<T>, C: Cipher<T>, n: nat, x: Vec<T>, y: Vec<T>, s: T)
    requires IsRing(R) && C.Valid() && |x| == |y| == C.t
    ensures D(R, C, n, VAdd(R, x, y)) == VAdd(R, D(R, C, n, x), D(R, C, n, y))
    ensures D(R, C, n, Scale(R, s, x)) == Scale(R, s, D(R, C, n, x))
  {
    hide Hat, HatN, Linear;
    HatNLinear(R, C, n);
    HatMapAt(R, C, n, x[1..], y[1..], s);
    assert VAdd(R, x, y)[1..] == VAdd(R, x[1..], y[1..]);
    assert Scale(R, s, x)[1..] == Scale(R, s, x[1..]);
  }

  lemma HatMapAt<T(!new)>(R: Ring<T>, C: Cipher<T>, n: nat, x: Vec<T>, y: Vec<T>, s: T)
    requires C.Valid() && Linear(R, C.t - 1, C.t - 1, HatMap(R, C, n)) && |x| == |y| == C.t - 1
    ensures HatN(R, C, n, VAdd(R, x, y)) == VAdd(R, HatN(R, C, n, x), HatN(R, C, n, y))
    ensures HatN(R, C, n, Scale(R, s, x)) == Scale(R, s, HatN(R, C, n, x))
  {
    hide HatN;
    assert LinearAt(R, C.t - 1, HatMap(R, C, n), x, y, s);
  }

  lemma UnhatMapAt<T(!new)>(R: Ring<T>, C: Cipher<T>, Q: seq<T>, n: nat, x: Vec<T>, y: Vec<T>, s: T)
    requires C.Valid() && |Q| == (C.t - 1) * (C.t - 1)
    requires Linear(R, C.t - 1, C.t - 1, UnhatMap(R, C, Q, n)) && |x| == |y| == C.t - 1
    ensures UnhatN(R, C, Q, n, VAdd(R, x, y)) == VAdd(R, UnhatN(R, C, Q, n, x), UnhatN(R, C, Q, n, y))
    ensures UnhatN(R, C, Q, n, Scale(R, s, x)) == Scale(R, s, UnhatN(R, C, Q, n, x))
  {
    hide UnhatN;
    assert LinearAt(R, C.t - 1, UnhatMap(R, C, Q, n), x, y, s);
  }

  lemma ELinearAt<T(!new)>(R: Ring<T>, C: Cipher<T>, Q: seq<T>, n: nat, x: Vec<T>, y: Vec<T>, s: T)
    requires IsRing(R) && C.Valid() && |x| == |y| == C.t && |Q| == (C.t - 1) * (C.t - 1)
    ensures E(R, C, Q, n, VAdd(R, x, y)) == VAdd(R, E(R, C, Q, n, x), E(R, C, Q, n, y))
    ensures E(R, C, Q, n, Scale(R, s, x)) == Scale(R, s, E(R, C, Q, n, x))
  {
    hide UnhatN, Linear;
    UnhatNLinear(R, C, Q, n);
    UnhatMapAt(R, C, Q, n, x[1..], y[1..], s);
    assert VAdd(R, x, y)[1..] == VAdd(R, x[1..], y[1..]);
    assert Scale(R, s, x)[1..] == Scale(R, s, x[1..]);
  }

  function GMap<T>(R: Ring<T>, C: Cipher<T>, Q: seq<T>, n: nat): Vec<T> -> Vec<T>
    requires C.Valid() && |Q| == (C.t - 1) * (C.t - 1) && n >= 1
  {
    y => if |y| == C.t then G(R, C, Q, n, y) else y
  }

  lemma GLinear<T(!new)>(R: Ring<T>, C: Cipher<T>, Q: seq<T>, n: nat)
    requires IsRing(R) && C.Valid() && |Q| == (C.t - 1) * (C.t - 1) && n >= 1
    ensures Linear(R, C.t, C.t, GMap(R, C, Q, n))
  {
    hide D, E, Apply, VAdd, Scale;
    forall x: Vec<T>, y: Vec<T>, s: T | |x| == |y| == C.t
      ensures LinearAt(R, C.t, GMap(R, C, Q, n), x, y, s)
    {
      ELinearAt(R, C, Q, n, x, y, s);
      var ex, ey := E(R, C, Q, n, x), E(R, C, Q, n, y);
      ApplyAdd(R, C.t, C.mds, ex, ey);
      ApplyScale(R, C.t, C.mds, s, ex);
      DLinearAt(R, C, n - 1, Apply(R, C.t, C.mds, ex), Apply(R, C.t, C.mds, ey), s);
    }
  }

  lemma JoinLinear<T(!new)>(R: Ring<T>, C: Cipher<T>)
    requires IsRing(R) && C.Valid()
    ensures Linear(R, C.t, C.t, JoinMap(R, C))
  {
    hide D, Apply, VAdd, Scale;
    forall x: Vec<T>, y: Vec<T>, s: T | |x| == |y| == C.t
      ensures LinearAt(R, C.t, JoinMap(R, C), x, y, s)
    {
      ApplyAdd(R, C.t, C.mds, x, y);
      ApplyScale(R, C.t, C.mds, s, x);
      DLinearAt(R, C, C.rp, Apply(R, C.t, C.mds, x), Apply(R, C.t, C.mds, y), s);
    }
  }

  // ----- D and E undo each other

  lemma {:induction false} HatNShift<T>(R: Ring<T>, C: Cipher<T>, n: nat, z: Vec<T>)
    requires C.Valid() && |z| == C.t - 1 && n >= 1
    ensures HatN(R, C, n, z) == HatN(R, C, n - 1, Hat(R, C, z))
  {
    hide Hat;
    if n > 1 {
      HatNShift(R, C, n - 1, z);
    }
  }

  lemma {:induction false} UnhatNShift<T>(R: Ring<T>, C: Cipher<T>, Q: seq<T>, n: nat, z: Vec<T>)
    requires C.Valid() && |z| == C.t - 1 && |Q| == (C.t - 1) * (C.t - 1) && n >= 1
    ensures UnhatN(R, C, Q, n, z) == UnhatN(R, C, Q, n - 1, Apply(R, C.t - 1, Q, z))
  {
    hide Apply;
    if n > 1 {
      UnhatNShift(R, C, Q, n - 1, z);
    }
  }

  lemma {:induction false} HatUnhat<T(!new)>(R: Ring<T>, C: Cipher<T>, Minv: seq<T>, Q: seq<T>, n: nat, z: Vec<T>)
    requires Inverses(R, C, Minv, Q) && |z| == C.t - 1
    ensures HatN(R, C, n, UnhatN(R, C, Q, n, z)) == z
  {
    hide Apply, Hat, InverseAt;
    if n > 0 {
      HatUnhat(R, C, Minv, Q, n - 1, z);
      HatNShift(R, C, n, UnhatN(R, C, Q, n, z));
      assert HatInverseAt(R, C, Q, UnhatN(R, C, Q, n - 1, z));
    }
  }

  lemma {:induction false} UnhatHat<T(!new)>(R: Ring<T>, C: Cipher<T>, Minv: seq<T>, Q: seq<T>, n: nat, z: Vec<T>)
    requires Inverses(R, C, Minv, Q) && |z| == C.t - 1
    ensures UnhatN(R, C, Q, n, HatN(R, C, n, z)) == z
  {
    hide Apply, Hat, InverseAt;
    if n > 0 {
      UnhatHat(R, C, Minv, Q, n - 1, z);
      UnhatNShift(R, C, Q, n, HatN(R, C, n, z));
      assert HatInverseAt(R, C, Q, HatN(R, C, n - 1, z));
    }
  }

  lemma DE<T(!new)>(R: Ring<T>, C: Cipher<T>, Minv: seq<T>, Q: seq<T>, n: nat, x: Vec<T>)
    requires Inverses(R, C, Minv, Q) && |x| == C.t
    ensures D(R, C, n, E(R, C, Q, n, x)) == x
    ensures E(R, C, Q, n, D(R, C, n, x)) == x
  {
    hide HatN, UnhatN, InverseAt, HatInverseAt;
    HatUnhat(R, C, Minv, Q, n, x[1..]);
    UnhatHat(R, C, Minv, Q, n, x[1..]);
    assert E(R, C, Q, n, x)[1..] == UnhatN(R, C, Q, n, x[1..]);
    assert D(R, C, n, x)[1..] == HatN(R, C, n, x[1..]);
  }

  lemma BlockIsD<T(!new)>(R: Ring<T>, C: Cipher<T>, n: nat, x: Vec<T>)
    requires IsRing(R) && C.Valid() && |x| == C.t
    ensures Block(R, HatTable(R, C, n), x) == D(R, C, n, x)
  {
    hide HatN, Apply, Linear, Tabulate, Unit;
    HatNLinear(R, C, n);
    TabulateApplies(R, C.t - 1, HatMap(R, C, n), x[1..]);
  }

  lemma JoinIsD<T(!new)>(R: Ring<T>, C: Cipher<T>, x: Vec<T>)
    requires IsRing(R) && C.Valid() && |x| == C.t
    ensures Apply(R, C.t, JoinTable(R, C), x) == D(R, C, C.rp, Apply(R, C.t, C.mds, x))
  {
    hide D, Apply, Linear, Tabulate, Unit;
    JoinLinear(R, C);
    TabulateApplies(R, C.t, JoinMap(R, C), x);
  }

  // ----- The matrix between two block matrices is sparse

  /** On a vector with nothing in the first element, G changes only that element. */
  lemma GKeepsRest<T(!new)>(R: Ring<T>, C: Cipher<T>, Minv: seq<T>, Q: seq<T>, n: nat, e: Vec<T>)
    requires Inverses(R, C, Minv, Q) && |e| == C.t && n >= 1 && e[0] == R.zero
    ensures G(R, C, Q, n, e)[1..] == e[1..]
  {
    hide Apply, HatN, UnhatN, InverseAt, HatInverseAt;
    var q := UnhatN(R, C, Q, n, e[1..]);
    assert E(R, C, Q, n, e) == [R.zero] + q;
    assert G(R, C, Q, n, e)[1..] == HatN(R, C, n - 1, Hat(R, C, q));
    HatNShift(R, C, n, q);
    HatUnhat(R, C, Minv, Q, n, e[1..]);
  }

  lemma SparseOnFirst<T(!new)>(R: Ring<T>, row: Vec<T>, col: Vec<T>)
    requires IsRing(R) && |row| == |col| + 1
    ensures SparseApply(R, row, col, Unit(R, |row|, 0)) == [row[0]] + col
  {
    RowDotUnit(R, row, 0, |row|);
    forall k | 0 <= k < |col|
      ensures R.add(R.zero, R.mul(R.one, col[k])) == col[k]
    {
      MulOne(R, col[k]);
      AddZero(R, col[k]);
    }
  }

  lemma SparseOnRest<T(!new)>(R: Ring<T>, row: Vec<T>, col: Vec<T>, j: nat)
    requires IsRing(R) && |row| == |col| + 1 && 1 <= j < |row|
    ensures SparseApply(R, row, col, Unit(R, |row|, j)) == [row[j]] + Unit(R, |row|, j)[1..]
  {
    var e := Unit(R, |row|, j);
    RowDotUnit(R, row, j, |row|);
    forall k | 0 <= k < |col|
      ensures R.add(e[k + 1], R.mul(R.zero, col[k])) == e[k + 1]
    {
      MulZero(R, col[k]);
      AddZero(R, e[k + 1]);
    }
  }

  lemma SparseIsGOnUnit<T(!new)>(R: Ring<T>, C: Cipher<T>, Minv: seq<T>, Q: seq<T>, n: nat, j: nat)
    requires IsRing(R) && Inverses(R, C, Minv, Q) && n >= 1 && j < C.t
    ensures SparseApply(R, RowOf(R, C, Q, n), ColOf(R, C, Q, n), Unit(R, C.t, j)) == G(R, C, Q, n, Unit(R, C.t, j))
  {
    hide G, SparseApply, InverseAt, HatInverseAt;
    var e := Unit(R, C.t, j);
    var row, col, g := RowOf(R, C, Q, n), ColOf(R, C, Q, n), G(R, C, Q, n, e);
    assert row[j] == g[0];
    if j == 0 {
      SparseOnFirst(R, row, col);
    } else {
      SparseOnRest(R, row, col, j);
      GKeepsRest(R, C, Minv, Q, n, e);
    }
    assert g == [g[0]] + g[1..];
  }

  lemma SparseIsG<T(!new)>(R: Ring<T>, C: Cipher<T>, Minv: seq<T>, Q: seq<T>, n: nat, y: Vec<T>)
    requires IsRing(R) && Inverses(R, C, Minv, Q) && n >= 1 && |y| == C.t
    ensures SparseApply(R, RowOf(R, C, Q, n), ColOf(R, C, Q, n), y) == G(R, C, Q, n, y)
  {
    hide G, SparseApply, Linear, Unit, RowOf, ColOf, InverseAt, HatInverseAt;
    var t, row, col := C.t, RowOf(R, C, Q, n), ColOf(R, C, Q, n);
    SparseLinear(R, row, col);
    GLinear(R, C, Q, n);
    forall j: nat | j < t
      ensures SparseMap(R, row, col)(Unit(R, t, j)) == GMap(R, C, Q, n)(Unit(R, t, j))
    {
      SparseIsGOnUnit(R, C, Minv, Q, n, j);
    }
    AgreeOnUnits(R, t, t, SparseMap(R, row, col), GMap(R, C, Q, n), y);
  }

  // ----- The derived tables factor the cipher

  /** The constants the derivation puts before the sparse matrix are the ones wanted after it. */
  lemma GOfConstants<T(!new)>(R: Ring<T>, C: Cipher<T>, Minv: seq<T>, Q: seq<T>, n: nat, c: Vec<T>, w: Vec<T>)
    requires IsRing(R) && Inverses(R, C, Minv, Q) && n >= 1 && |c| == |w| == C.t
    ensures G(R, C, Q, n, D(R, C, n, Apply(R, C.t, Minv, VAdd(R, c, E(R, C, Q, n - 1, w)))))
         == VAdd(R, D(R, C, n - 1, c), w)
  {
    hide D, E, Apply, VAdd, HatInverseAt;
    var later := E(R, C, Q, n - 1, w);
    var u := VAdd(R, c, later);
    assert InverseAt(R, C.t, C.mds, Minv, u);
    DE(R, C, Minv, Q, n, Apply(R, C.t, Minv, u));
    DLinearAt(R, C, n - 1, c, later, R.zero);
    DE(R, C, Minv, Q, n - 1, w);
  }

  lemma DerivedPartialFactors<T(!new)>(R: Ring<T>, C: Cipher<T>, Minv: seq<T>, Q: seq<T>, r: nat)
    requires IsRing(R) && Inverses(R, C, Minv, Q) && r < C.rp
    requires Shapes(C, Derived(R, C, Minv, Q), DerivedFactors(R, C, Minv, Q))
    ensures PartialFactors(R, C, Derived(R, C, Minv, Q), DerivedFactors(R, C, Minv, Q), r)
  {
    hide D, E, W, Z, SparseApply, Block, Apply, VAdd, RowOf, ColOf, HatTable, Unit, InverseAt, HatInverseAt, EarlyTable, JoinTable;
    var P, F, n := Derived(R, C, Minv, Q), DerivedFactors(R, C, Minv, Q), C.rp - r;
    forall j: nat | j < C.t
      ensures SparseApply(R, P.rows[r], P.cols[r], Block(R, F.N[r], Unit(R, C.t, j)))
           == Block(R, F.N[r + 1], Apply(R, C.t, C.mds, Unit(R, C.t, j)))
    {
      var e := Unit(R, C.t, j);
      BlockIsD(R, C, n, e);
      SparseIsG(R, C, Minv, Q, n, D(R, C, n, e));
      DE(R, C, Minv, Q, n, e);
      BlockIsD(R, C, n - 1, Apply(R, C.t, C.mds, e));
    }
    assert F.w[r][0 := P.ks[r]] == Z(R, C, Minv, Q, r) by {
      assert F.w[r] == W(R, C, Minv, Q, r) == Z(R, C, Minv, Q, r)[0 := R.zero] by { WBefore(R, C, Minv, Q, r); }
    }
    SparseIsG(R, C, Minv, Q, n, Z(R, C, Minv, Q, r));
    ZIs(R, C, Minv, Q, r);
    GOfConstants(R, C, Minv, Q, n, C.c[C.half + r + 1], W(R, C, Minv, Q, r + 1));
    BlockIsD(R, C, n - 1, C.c[C.half + r + 1]);
  }

  lemma ZIs<T>(R: Ring<T>, C: Cipher<T>, Minv: seq<T>, Q: seq<T>, r: nat)
    requires C.Valid() && |Minv| == C.t * C.t && |Q| == (C.t - 1) * (C.t - 1) && r < C.rp
    ensures Z(R, C, Minv, Q, r) == D(R, C, C.rp - r, Apply(R, C.t, Minv,
      VAdd(R, C.c[C.half + r + 1], E(R, C, Q, C.rp - r - 1, W(R, C, Minv, Q, r + 1)))))
  {
    hide D, E, W, Apply, VAdd;
  }

  lemma WBefore<T>(R: Ring<T>, C: Cipher<T>, Minv: seq<T>, Q: seq<T>, r: nat)
    requires C.Valid() && |Minv| == C.t * C.t && |Q| == (C.t - 1) * (C.t - 1) && r < C.rp
    ensures W(R, C, Minv, Q, r) == Z(R, C, Minv, Q, r)[0 := R.zero]
  {
    hide Z;
  }

  lemma DerivedJoinFactors<T(!new)>(R: Ring<T>, C: Cipher<T>, Minv: seq<T>, Q: seq<T>)
    requires IsRing(R) && Inverses(R, C, Minv, Q)
    requires Shapes(C, Derived(R, C, Minv, Q), DerivedFactors(R, C, Minv, Q))
    ensures JoinFactors(R, C, Derived(R, C, Minv, Q), DerivedFactors(R, C, Minv, Q))
  {
    hide D, E, W, Z, Block, Apply, VAdd, RowOf, ColOf, HatTable, Unit, InverseAt, HatInverseAt, JoinTable;
    var P, F, n := Derived(R, C, Minv, Q), DerivedFactors(R, C, Minv, Q), C.rp;
    forall j: nat | j < C.t
      ensures Apply(R, C.t, P.presparse, Unit(R, C.t, j)) == Block(R, F.N[0], Apply(R, C.t, C.mds, Unit(R, C.t, j)))
    {
      JoinIsD(R, C, Unit(R, C.t, j));
      BlockIsD(R, C, n, Apply(R, C.t, C.mds, Unit(R, C.t, j)));
    }
    JoinOfConstants(R, C, Minv, Q, C.c[C.half], W(R, C, Minv, Q, 0));
    BlockIsD(R, C, n, C.c[C.half]);
  }

  lemma JoinOfConstants<T(!new)>(R: Ring<T>, C: Cipher<T>, Minv: seq<T>, Q: seq<T>, c: Vec<T>, w: Vec<T>)
    requires IsRing(R) && Inverses(R, C, Minv, Q) && |c| == |w| == C.t
    ensures Apply(R, C.t, JoinTable(R, C), Apply(R, C.t, Minv, VAdd(R, c, E(R, C, Q, C.rp, w))))
         == VAdd(R, D(R, C, C.rp, c), w)
  {
    hide D, E, Apply, VAdd, HatInverseAt, JoinTable;
    var later := E(R, C, Q, C.rp, w);
    var u := VAdd(R, c, later);
    assert InverseAt(R, C.t, C.mds, Minv, u);
    JoinIsD(R, C, Apply(R, C.t, Minv, u));
    DLinearAt(R, C, C.rp, c, later, R.zero);
    DE(R, C, Minv, Q, C.rp, w);
  }

  lemma DerivedEarly<T(!new)>(R: Ring<T>, C: Cipher<T>, Minv: seq<T>, Q: seq<T>)
    requires Inverses(R, C, Minv, Q)
    requires Shapes(C, Derived(R, C, Minv, Q), DerivedFactors(R, C, Minv, Q))
    ensures EarlyFactors(R, C, Derived(R, C, Minv, Q))
  {
    hide Z, Apply, RowOf, ColOf, DerivedFactors, HatInverseAt, JoinTable, W, E;
    var P := Derived(R, C, Minv, Q);
    forall r: nat | 1 <= r < C.half
      ensures Apply(R, C.t, C.mds, P.early[r]) == C.c[r]
    {
      assert InverseAt(R, C.t, C.mds, Minv, C.c[r]);
    }
  }

  lemma DerivedLate<T(!new)>(R: Ring<T>, C: Cipher<T>, Minv: seq<T>, Q: seq<T>)
    requires Inverses(R, C, Minv, Q)
    requires Shapes(C, Derived(R, C, Minv, Q), DerivedFactors(R, C, Minv, Q))
    ensures LateFactors(R, C, Derived(R, C, Minv, Q))
  {
    hide Z, Apply, RowOf, ColOf, DerivedFactors, EarlyTable, HatInverseAt, JoinTable, W, E;
    var P := Derived(R, C, Minv, Q);
    forall r: nat | r < C.half - 1
      ensures Apply(R, C.t, C.mds, P.late[r]) == C.c[C.half + C.rp + r + 1]
    {
      assert InverseAt(R, C.t, C.mds, Minv, C.c[C.half + C.rp + 1 + r]);
    }
  }

  /** Nothing is in transit after the last partial round, and never in the first element. */
  lemma WEnds<T>(R: Ring<T>, C: Cipher<T>, Minv: seq<T>, Q: seq<T>)
    requires C.Valid() && |Minv| == C.t * C.t && |Q| == (C.t - 1) * (C.t - 1)
    ensures forall r | 0 <= r <= C.rp :: DerivedFactors(R, C, Minv, Q).w[r][0] == R.zero
    ensures forall i | 0 <= i < C.t :: DerivedFactors(R, C, Minv, Q).w[C.rp][i] == R.zero
  {
    hide Z, HatTable;
    forall r | 0 <= r <= C.rp ensures DerivedFactors(R, C, Minv, Q).w[r][0] == R.zero {
      assert DerivedFactors(R, C, Minv, Q).w[r] == W(R, C, Minv, Q, r);
    }
  }

  lemma DerivedFactor<T(!new)>(R: Ring<T>, C: Cipher<T>, Minv: seq<T>, Q: seq<T>)
    requires IsRing(R) && Inverses(R, C, Minv, Q)
    ensures Factor(R, C, Derived(R, C, Minv, Q), DerivedFactors(R, C, Minv, Q))
  {
    hide Block, Unit, HatTable, W, Derived, EarlyFactors, LateFactors, PartialFactors, JoinFactors, InverseAt, HatInverseAt;
    var P, F := Derived(R, C, Minv, Q), DerivedFactors(R, C, Minv, Q);
    DerivedShapes(R, C, Minv, Q);
    DerivedEarly(R, C, Minv, Q);
    DerivedLate(R, C, Minv, Q);
    DerivedJoinFactors(R, C, Minv, Q);
    forall r: nat | r < C.rp
      ensures PartialFactors(R, C, P, F, r)
    {
      DerivedPartialFactors(R, C, Minv, Q, r);
    }
    forall j: nat | j < C.t
      ensures Block(R, F.N[C.rp], Unit(R, C.t, j)) == Unit(R, C.t, j)
    {
      IdentityBlock(R, C, Unit(R, C.t, j));
    }
    WEnds(R, C, Minv, Q);
  }

  lemma IdentityBlock<T(!new)>(R: Ring<T>, C: Cipher<T>, x: Vec<T>)
    requires IsRing(R) && C.Valid() && |x| == C.t
    ensures Block(R, HatTable(R, C, 0), x) == x
  {
    hide Block, HatTable;
    BlockIsD(R, C, 0, x);
  }

  /** The fast permutation with derived tables is the textbook cipher they were derived from. */
  lemma DerivedIsEncrypt<T(!new)>(R: Ring<T>, C: Cipher<T>, Minv: seq<T>, Q: seq<T>, x: Vec<T>)
    requires IsRing(R) && Inverses(R, C, Minv, Q) && |x| == C.t
    ensures Derived(R, C, Minv, Q).Valid() && Derived(R, C, Minv, Q).t == C.t
    ensures Permuted(R, Derived(R, C, Minv, Q), x) == Encrypt(R, C, x)
  {
    hide Derived, DerivedFactors, Permuted, Encrypt, InverseAt, HatInverseAt;
    DerivedFactor(R, C, Minv, Q);
    PermutedIsEncrypt(R, C, Derived(R, C, Minv, Q), DerivedFactors(R, C, Minv, Q), x);
  }
}
