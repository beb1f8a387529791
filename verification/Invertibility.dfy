/**
The optimised permutation is a bijection of the states: an explicit inverse undoes every
round, given inverses of the dense matrices, of the S-box, and of each sparse matrix's
Schur complement m - w.v.
 */
module Invertibility {
  import opened Rings
  import opened Matrices
  import opened Poseidon

  // ----- Subtraction

  function Sub<T>(R: Ring<T>, a: T, b: T): T { R.add(a, R.neg(b)) }

  function VSub<T>(R: Ring<T>, x: Vec<T>, y: Vec<T>): (z: Vec<T>)
    requires |x| == |y|
    ensures |z| == |x|
  {
    seq(|x|, i requires 0 <= i < |x| => Sub(R, x[i], y[i]))
  }

  lemma SubAdd<T(!new)>(R: Ring<T>, a: T, b: T)
    requires IsRing(R)
    ensures R.add(Sub(R, a, b), b) == a
    ensures Sub(R, R.add(a, b), b) == a
  {
    AddAssoc(R, a, R.neg(b), b);
    AddAssoc(R, a, b, R.neg(b));
    AddNeg(R, b);
    AddZero(R, a);
  }

  lemma VSubAdd<T(!new)>(R: Ring<T>, x: Vec<T>, y: Vec<T>)
    requires IsRing(R) && |x| == |y|
    ensures VAdd(R, VSub(R, x, y), y) == x
    ensures VSub(R, VAdd(R, x, y), y) == x
  {
    forall i | 0 <= i < |x|
      ensures R.add(Sub(R, x[i], y[i]), y[i]) == x[i] == Sub(R, R.add(x[i], y[i]), y[i])
    {
      SubAdd(R, x[i], y[i]);
    }
  }

  lemma Cancel<T(!new)>(R: Ring<T>, a: T, b: T, c: T)
    requires IsRing(R) && R.add(a, c) == R.add(b, c)
    ensures a == b
  {
    SubAdd(R, a, c);
    SubAdd(R, b, c);
  }

  // ----- What the inverse is given

  ghost predicate RootAt<T>(R: Ring<T>, root: T -> T, a: T) {
    root(Pow5(R, a)) == a && Pow5(R, root(a)) == a
  }

  /** root undoes the S-box on either side. */
  ghost predicate UndoesSbox<T(!new)>(R: Ring<T>, root: T -> T) {
    forall a :: RootAt(R, root, a)
  }

  /** u is the inverse of m - w.v, for the sparse matrix with first row m, v and first column m, w. */
  ghost predicate SchurUnit<T>(R: Ring<T>, row: Vec<T>, col: Vec<T>, u: T)
    requires |row| == |col| + 1
  {
    R.mul(u, Sub(R, row[0], RowDot(R, row[1..], col, |col|))) == R.one
  }

  /** root undoes the S-box, Minv and Pinv the dense matrices, units the sparse ones. */
  datatype Keys<!T> = Keys(root: T -> T, Minv: seq<T>, Pinv: seq<T>, units: seq<T>)

  ghost predicate SchurUnits<T>(R: Ring<T>, rows: seq<Vec<T>>, cols: seq<Vec<T>>, units: seq<T>) {
    && |rows| == |cols| == |units|
    && forall r | 0 <= r < |rows| :: |rows[r]| == |cols[r]| + 1 && SchurUnit(R, rows[r], cols[r], units[r])
  }

  ghost predicate Invertible<T(!new)>(R: Ring<T>, P: Tables<T>, K: Keys<T>) {
    && P.Valid()
    && UndoesSbox(R, K.root)
    && InverseMatrix(R, P.t, P.mds, K.Minv)
    && InverseMatrix(R, P.t, P.presparse, K.Pinv)
    && SchurUnits(R, P.rows, P.cols, K.units)
  }

  // ----- Sparse matrices

  function Unsparse<T>(R: Ring<T>, row: Vec<T>, col: Vec<T>, u: T, z: Vec<T>): (y: Vec<T>)
    requires |row| == |z| == |col| + 1
    ensures |y| == |z|
  {
    var y0 := R.mul(u, Sub(R, z[0], RowDot(R, row[1..], z[1..], |col|)));
    [y0] + VSub(R, z[1..], Scale(R, y0, col))
  }

  lemma {:induction false} RowDotPeel<T(!new)>(R: Ring<T>, row: Vec<T>, y: Vec<T>, n: nat)
    requires IsRing(R) && 1 <= n <= |row| && n <= |y|
    ensures RowDot(R, row, y, n) == R.add(R.mul(row[0], y[0]), RowDot(R, row[1..], y[1..], n - 1))
  {
    var m := R.mul(row[0], y[0]);
    if n == 1 {
      AddZero(R, m);
      assert RowDot(R, row, y, 0) == R.zero;
    } else {
      RowDotPeel(R, row, y, n - 1);
      AddAssoc(R, m, RowDot(R, row[1..], y[1..], n - 2), R.mul(row[n - 1], y[n - 1]));
    }
  }

  /** m y0 + s, less s + y0 d, is y0 (m - d). */
  lemma Schur<T(!new)>(R: Ring<T>, m: T, d: T, s: T, y0: T)
    requires IsRing(R)
    ensures Sub(R, R.add(R.mul(m, y0), s), R.add(s, R.mul(y0, d))) == R.mul(y0, Sub(R, m, d))
  {
    var z, q := R.add(R.mul(m, y0), s), R.add(s, R.mul(y0, d));
    var p := R.mul(y0, Sub(R, m, d));
    assert R.add(p, q) == z by {
      AddComm(R, s, R.mul(y0, d));
      AddAssoc(R, p, R.mul(y0, d), s);
      MulAdd(R, y0, Sub(R, m, d), d);
      SubAdd(R, m, d);
      MulComm(R, m, y0);
    }
    SubAdd(R, z, q);
    Cancel(R, Sub(R, z, q), p, q);
  }

  lemma SparseParts<T(!new)>(R: Ring<T>, row: Vec<T>, col: Vec<T>, y: Vec<T>)
    requires IsRing(R) && |row| == |y| == |col| + 1
    ensures SparseApply(R, row, col, y)
         == [R.add(R.mul(row[0], y[0]), RowDot(R, row[1..], y[1..], |col|))] + VAdd(R, y[1..], Scale(R, y[0], col))
  {
    RowDotPeel(R, row, y, |y|);
  }

  lemma UnsparseSparse<T(!new)>(R: Ring<T>, row: Vec<T>, col: Vec<T>, u: T, y: Vec<T>)
    requires IsRing(R) && |row| == |y| == |col| + 1 && SchurUnit(R, row, col, u)
    ensures Unsparse(R, row, col, u, SparseApply(R, row, col, y)) == y
  {
    hide SparseApply, RowDot, VAdd, VSub, Scale, Sub;
    var z, n, v := SparseApply(R, row, col, y), |col|, row[1..];
    var s, d, y0, rest := RowDot(R, v, y[1..], n), RowDot(R, v, col, n), y[0], Scale(R, y[0], col);
    SparseParts(R, row, col, y);
    assert z[0] == R.add(R.mul(row[0], y0), s) && z[1..] == VAdd(R, y[1..], rest);
    assert RowDot(R, v, z[1..], n) == R.add(s, R.mul(y0, d)) by {
      RowDotAdd(R, v, y[1..], rest, n);
      RowDotScale(R, v, y0, col, n);
    }
    var e := Sub(R, row[0], d);
    assert R.mul(u, R.mul(y0, e)) == y0 by {
      MulComm(R, y0, e);
      MulAssoc(R, u, e, y0);
      MulOne(R, y0);
    }
    Schur(R, row[0], d, s, y0);
    VSubAdd(R, y[1..], rest);
    assert y == [y0] + y[1..];
  }

  lemma SparseUnsparse<T(!new)>(R: Ring<T>, row: Vec<T>, col: Vec<T>, u: T, z: Vec<T>)
    requires IsRing(R) && |row| == |z| == |col| + 1 && SchurUnit(R, row, col, u)
    ensures SparseApply(R, row, col, Unsparse(R, row, col, u, z)) == z
  {
    hide SparseApply, RowDot, VAdd, VSub, Scale, Sub;
    var y, n, v := Unsparse(R, row, col, u, z), |col|, row[1..];
    var q, d, y0, rest := RowDot(R, v, z[1..], n), RowDot(R, v, col, n), y[0], Scale(R, y[0], col);
    assert y[1..] == VSub(R, z[1..], rest);
    SparseParts(R, row, col, y);
    VSubAdd(R, z[1..], rest);
    var s, e := RowDot(R, v, y[1..], n), Sub(R, row[0], d);
    assert q == R.add(s, R.mul(y0, d)) by {
      RowDotAdd(R, v, y[1..], rest, n);
      RowDotScale(R, v, y0, col, n);
    }
    var z0 := R.add(R.mul(row[0], y0), s);
    Schur(R, row[0], d, s, y0);
    assert R.mul(y0, e) == Sub(R, z[0], q) by {
      MulComm(R, u, Sub(R, z[0], q));
      MulAssoc(R, Sub(R, z[0], q), u, e);
      MulOne(R, Sub(R, z[0], q));
    }
    SubAdd(R, z0, q);
    SubAdd(R, z[0], q);
    assert z0 == z[0];
    assert z == [z[0]] + z[1..];
  }

  // ----- Rounds

  function RootAll<T>(root: T -> T, y: Vec<T>): (x: Vec<T>)
    ensures |x| == |y|
  {
    seq(|y|, i requires 0 <= i < |y| => root(y[i]))
  }

  lemma RootsUndo<T(!new)>(R: Ring<T>, root: T -> T, x: Vec<T>)
    requires UndoesSbox(R, root)
    ensures RootAll(root, SboxAll(R, x)) == x
    ensures SboxAll(R, RootAll(root, x)) == x
  {
    hide Pow5;
    forall i | 0 <= i < |x| ensures RootAt(R, root, x[i]) {
    }
  }

  function UndoFull<T>(R: Ring<T>, t: nat, Minv: seq<T>, root: T -> T, k: Vec<T>, z: Vec<T>): (y: Vec<T>)
    requires |Minv| == t * t && |k| == |z| == t
    ensures |y| == t
  {
    RootAll(root, VSub(R, Apply(R, t, Minv, z), k))
  }

  lemma UndoFullRound<T(!new)>(R: Ring<T>, t: nat, M: seq<T>, Minv: seq<T>, root: T -> T, k: Vec<T>, y: Vec<T>)
    requires IsRing(R) && InverseMatrix(R, t, M, Minv) && UndoesSbox(R, root) && |k| == |y| == t
    ensures UndoFull(R, t, Minv, root, k, FullRound(R, t, M, k, y)) == y
    ensures FullRound(R, t, M, k, UndoFull(R, t, Minv, root, k, y)) == y
  {
    hide Apply, VAdd, VSub, SboxAll, RootAll, UndoesSbox;
    RootsUndo(R, root, y);
    VSubAdd(R, SboxAll(R, y), k);
    assert InverseAt(R, t, M, Minv, VAdd(R, SboxAll(R, y), k));
    assert InverseAt(R, t, M, Minv, y);
    var v := Apply(R, t, Minv, y);
    RootsUndo(R, root, VSub(R, v, k));
    VSubAdd(R, v, k);
  }

  function UndoPartial<T>(R: Ring<T>, row: Vec<T>, col: Vec<T>, u: T, root: T -> T, k: T, z: Vec<T>): (y: Vec<T>)
    requires |row| == |z| == |col| + 1
    ensures |y| == |z|
  {
    var y := Unsparse(R, row, col, u, z);
    y[0 := root(Sub(R, y[0], k))]
  }

  lemma UndoPartialRound<T(!new)>(R: Ring<T>, row: Vec<T>, col: Vec<T>, u: T, root: T -> T, k: T, y: Vec<T>)
    requires IsRing(R) && |row| == |y| == |col| + 1 && SchurUnit(R, row, col, u) && UndoesSbox(R, root)
    ensures UndoPartial(R, row, col, u, root, k, PartialRound(R, row, col, k, y)) == y
    ensures PartialRound(R, row, col, k, UndoPartial(R, row, col, u, root, k, y)) == y
  {
    hide Unsparse, SparseApply, Pow5, SchurUnit, Sub;
    var s := Pow5(R, y[0]);
    assert RootAt(R, root, y[0]);
    UnsparseSparse(R, row, col, u, y[0 := R.add(s, k)]);
    SubAdd(R, s, k);
    var w := Unsparse(R, row, col, u, y);
    assert RootAt(R, root, Sub(R, w[0], k));
    SubAdd(R, w[0], k);
    SparseUnsparse(R, row, col, u, y);
    assert w[0 := root(Sub(R, w[0], k))][0 := w[0]] == w;
    assert y[0 := R.add(s, k)][0 := y[0]] == y;
  }

  // ----- The whole permutation

  ghost function UndoEarly<T>(R: Ring<T>, P: Tables<T>, K: Keys<T>, y: Vec<T>, n: nat): (x: Vec<T>)
    requires P.Valid() && |K.Minv| == P.t * P.t && |y| == P.t && n < P.half
    ensures |x| == P.t
    decreases n
  {
    if n == 0 then VSub(R, y, P.early[0])
    else UndoEarly(R, P, K, UndoFull(R, P.t, K.Minv, K.root, P.early[n], y), n - 1)
  }

  ghost function UndoPartials<T>(R: Ring<T>, P: Tables<T>, K: Keys<T>, z: Vec<T>, n: nat): (y: Vec<T>)
    requires P.Valid() && |K.units| == P.rp && |z| == P.t && n <= P.rp
    ensures |y| == P.t
    decreases n
  {
    if n == 0 then z
    else UndoPartials(R, P, K, UndoPartial(R, P.rows[n - 1], P.cols[n - 1], K.units[n - 1], K.root, P.ks[n - 1], z), n - 1)
  }

  ghost function UndoLate<T>(R: Ring<T>, P: Tables<T>, K: Keys<T>, z: Vec<T>, n: nat): (y: Vec<T>)
    requires P.Valid() && |K.Minv| == P.t * P.t && |z| == P.t && n < P.half
    ensures |y| == P.t
    decreases n
  {
    if n == 0 then z
    else UndoLate(R, P, K, UndoFull(R, P.t, K.Minv, K.root, P.late[n - 1], z), n - 1)
  }

  ghost function Unpermuted<T>(R: Ring<T>, P: Tables<T>, K: Keys<T>, y: Vec<T>): (x: Vec<T>)
    requires P.Valid() && |K.Minv| == |K.Pinv| == P.t * P.t && |K.units| == P.rp && |y| == P.t
    ensures |x| == P.t
  {
    var late := RootAll(K.root, Apply(R, P.t, K.Minv, y));
    var partial := UndoPartials(R, P, K, UndoLate(R, P, K, late, P.half - 1), P.rp);
    UndoEarly(R, P, K, UndoFull(R, P.t, K.Pinv, K.root, P.early[P.half], partial), P.half - 1)
  }

  lemma {:induction false} EarlyUndone<T(!new)>(R: Ring<T>, P: Tables<T>, K: Keys<T>, x: Vec<T>, n: nat)
    requires IsRing(R) && Invertible(R, P, K) && |x| == P.t && n < P.half
    ensures UndoEarly(R, P, K, Early(R, P, x, n), n) == x
  {
    hide FullRound, UndoFull, VAdd, VSub, SchurUnits;
    if n == 0 {
      VSubAdd(R, x, P.early[0]);
    } else {
      EarlyUndone(R, P, K, x, n - 1);
      UndoFullRound(R, P.t, P.mds, K.Minv, K.root, P.early[n], Early(R, P, x, n - 1));
    }
  }

  lemma {:induction false} EarlyRedone<T(!new)>(R: Ring<T>, P: Tables<T>, K: Keys<T>, y: Vec<T>, n: nat)
    requires IsRing(R) && Invertible(R, P, K) && |y| == P.t && n < P.half
    ensures Early(R, P, UndoEarly(R, P, K, y, n), n) == y
    decreases n
  {
    hide FullRound, UndoFull, VAdd, VSub, SchurUnits;
    if n == 0 {
      VSubAdd(R, y, P.early[0]);
    } else {
      EarlyRedone(R, P, K, UndoFull(R, P.t, K.Minv, K.root, P.early[n], y), n - 1);
      UndoFullRound(R, P.t, P.mds, K.Minv, K.root, P.early[n], y);
    }
  }

  lemma {:induction false} PartialUndone<T(!new)>(R: Ring<T>, P: Tables<T>, K: Keys<T>, y: Vec<T>, n: nat)
    requires IsRing(R) && Invertible(R, P, K) && |y| == P.t && n <= P.rp
    ensures UndoPartials(R, P, K, Partial(R, P, y, n), n) == y
  {
    hide PartialRound, UndoPartial, SchurUnit, InverseMatrix;
    if n > 0 {
      PartialUndone(R, P, K, y, n - 1);
      UndoPartialRound(R, P.rows[n - 1], P.cols[n - 1], K.units[n - 1], K.root, P.ks[n - 1], Partial(R, P, y, n - 1));
    }
  }

  lemma {:induction false} PartialRedone<T(!new)>(R: Ring<T>, P: Tables<T>, K: Keys<T>, z: Vec<T>, n: nat)
    requires IsRing(R) && Invertible(R, P, K) && |z| == P.t && n <= P.rp
    ensures Partial(R, P, UndoPartials(R, P, K, z, n), n) == z
    decreases n
  {
    hide PartialRound, UndoPartial, SchurUnit, InverseMatrix;
    if n > 0 {
      var row, col, u, k := P.rows[n - 1], P.cols[n - 1], K.units[n - 1], P.ks[n - 1];
      PartialRedone(R, P, K, UndoPartial(R, row, col, u, K.root, k, z), n - 1);
      UndoPartialRound(R, row, col, u, K.root, k, z);
    }
  }

  lemma {:induction false} LateUndone<T(!new)>(R: Ring<T>, P: Tables<T>, K: Keys<T>, y: Vec<T>, n: nat)
    requires IsRing(R) && Invertible(R, P, K) && |y| == P.t && n < P.half
    ensures UndoLate(R, P, K, Late(R, P, y, n), n) == y
  {
    hide FullRound, UndoFull, SchurUnits;
    if n > 0 {
      LateUndone(R, P, K, y, n - 1);
      UndoFullRound(R, P.t, P.mds, K.Minv, K.root, P.late[n - 1], Late(R, P, y, n - 1));
    }
  }

  lemma {:induction false} LateRedone<T(!new)>(R: Ring<T>, P: Tables<T>, K: Keys<T>, z: Vec<T>, n: nat)
    requires IsRing(R) && Invertible(R, P, K) && |z| == P.t && n < P.half
    ensures Late(R, P, UndoLate(R, P, K, z, n), n) == z
    decreases n
  {
    hide FullRound, UndoFull, SchurUnits;
    if n > 0 {
      LateRedone(R, P, K, UndoFull(R, P.t, K.Minv, K.root, P.late[n - 1], z), n - 1);
      UndoFullRound(R, P.t, P.mds, K.Minv, K.root, P.late[n - 1], z);
    }
  }

  lemma UnpermutedPermuted<T(!new)>(R: Ring<T>, P: Tables<T>, K: Keys<T>, x: Vec<T>)
    requires IsRing(R) && Invertible(R, P, K) && |x| == P.t
    ensures Unpermuted(R, P, K, Permuted(R, P, x)) == x
  {
    hide Early, UndoEarly, Partial, UndoPartials, Late, UndoLate, FullRound, UndoFull, Apply, SboxAll, RootAll, SchurUnits, UndoesSbox;
    var early := Early(R, P, x, P.half - 1);
    var first := FirstHalf(R, P, x);
    var partial := Partial(R, P, first, P.rp);
    var late := Late(R, P, partial, P.half - 1);
    RootsUndo(R, K.root, late);
    assert InverseAt(R, P.t, P.mds, K.Minv, SboxAll(R, late));
    LateUndone(R, P, K, partial, P.half - 1);
    PartialUndone(R, P, K, first, P.rp);
    UndoFullRound(R, P.t, P.presparse, K.Pinv, K.root, P.early[P.half], early);
    EarlyUndone(R, P, K, x, P.half - 1);
  }

  lemma PermutedUnpermuted<T(!new)>(R: Ring<T>, P: Tables<T>, K: Keys<T>, y: Vec<T>)
    requires IsRing(R) && Invertible(R, P, K) && |y| == P.t
    ensures Permuted(R, P, Unpermuted(R, P, K, y)) == y
  {
    hide Early, UndoEarly, Partial, UndoPartials, Late, UndoLate, FullRound, UndoFull, Apply, SboxAll, RootAll, SchurUnit, UndoesSbox;
    var v := Apply(R, P.t, K.Minv, y);
    var late := RootAll(K.root, v);
    var last := UndoLate(R, P, K, late, P.half - 1);
    var partial := UndoPartials(R, P, K, last, P.rp);
    RootsUndo(R, K.root, v);
    assert InverseAt(R, P.t, P.mds, K.Minv, y);
    LateRedone(R, P, K, late, P.half - 1);
    PartialRedone(R, P, K, last, P.rp);
    UndoFullRound(R, P.t, P.presparse, K.Pinv, K.root, P.early[P.half], partial);
    EarlyRedone(R, P, K, UndoFull(R, P.t, K.Pinv, K.root, P.early[P.half], partial), P.half - 1);
  }
}
