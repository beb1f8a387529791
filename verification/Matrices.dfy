/**
Square matrices in the column-major flat form the permutation's tables use, the sparse
matrices of its partial rounds, and the block matrices that factor them.
 */
module Matrices {
  import opened Arithmetic
  import opened Rings

  lemma IndexBound(t: nat, j: nat, i: nat)
    requires j < t && i < t
    ensures 0 <= j * t + i < t * t
  {
    assert (j + 1) * t <= t * t;
  }

  /** Row i of column j. */
  function Entry<T>(t: nat, M: seq<T>, j: nat, i: nat): T
    requires |M| == t * t && j < t && i < t
  {
    IndexBound(t, j, i);
    M[j * t + i]
  }

  /** The first n terms of row i of M times x. */
  function Dot<T>(R: Ring<T>, t: nat, M: seq<T>, x: Vec<T>, i: nat, n: nat): T
    requires |M| == t * t && |x| == t && i < t && n <= t
  {
    if n == 0 then R.zero
    else R.add(Dot(R, t, M, x, i, n - 1), R.mul(x[n - 1], Entry(t, M, n - 1, i)))
  }

  function Apply<T>(R: Ring<T>, t: nat, M: seq<T>, x: Vec<T>): (y: Vec<T>)
    requires |M| == t * t && |x| == t
    ensures |y| == t
  {
    seq(t, i requires 0 <= i < t => Dot(R, t, M, x, i, t))
  }

  function MatrixMap<T>(R: Ring<T>, t: nat, M: seq<T>): Vec<T> -> Vec<T>
    requires |M| == t * t
  {
    x => if |x| == t then Apply(R, t, M, x) else x
  }

  lemma {:induction false} DotAdd<T(!new)>(R: Ring<T>, t: nat, M: seq<T>, x: Vec<T>, y: Vec<T>, i: nat, n: nat)
    requires IsRing(R) && |M| == t * t && |x| == |y| == t && i < t && n <= t
    ensures Dot(R, t, M, VAdd(R, x, y), i, n) == R.add(Dot(R, t, M, x, i, n), Dot(R, t, M, y, i, n))
  {
    hide Entry;
    if n == 0 {
      AddZero(R, R.zero);
    } else {
      assert VAdd(R, x, y)[n - 1] == R.add(x[n - 1], y[n - 1]);
      hide VAdd;
      DotAdd(R, t, M, x, y, i, n - 1);
      var m := Entry(t, M, n - 1, i);
      MulAdd(R, m, x[n - 1], y[n - 1]);
      AddSwap(R, Dot(R, t, M, x, i, n - 1), Dot(R, t, M, y, i, n - 1), R.mul(x[n - 1], m), R.mul(y[n - 1], m));
    }
  }

  lemma {:induction false} DotScale<T(!new)>(R: Ring<T>, t: nat, M: seq<T>, s: T, x: Vec<T>, i: nat, n: nat)
    requires IsRing(R) && |M| == t * t && |x| == t && i < t && n <= t
    ensures Dot(R, t, M, Scale(R, s, x), i, n) == R.mul(s, Dot(R, t, M, x, i, n))
  {
    hide Entry;
    if n == 0 {
      MulZero(R, s);
    } else {
      DotScale(R, t, M, s, x, i, n - 1);
      var m := Entry(t, M, n - 1, i);
      MulAssoc(R, s, x[n - 1], m);
      MulAdd(R, s, Dot(R, t, M, x, i, n - 1), R.mul(x[n - 1], m));
    }
  }

  lemma {:induction false} DotUnit<T(!new)>(R: Ring<T>, t: nat, M: seq<T>, j: nat, i: nat, n: nat)
    requires IsRing(R) && |M| == t * t && i < t && j < t && n <= t
    ensures Dot(R, t, M, Unit(R, t, j), i, n) == if j < n then Entry(t, M, j, i) else R.zero
  {
    if n > 0 {
      DotUnit(R, t, M, j, i, n - 1);
      var m := Entry(t, M, n - 1, i);
      MulOne(R, m);
      MulZero(R, m);
      AddZero(R, m);
      AddZero(R, Entry(t, M, j, i));
      AddZero(R, R.zero);
    }
  }

  lemma ApplyAdd<T(!new)>(R: Ring<T>, t: nat, M: seq<T>, x: Vec<T>, y: Vec<T>)
    requires IsRing(R) && |M| == t * t && |x| == |y| == t
    ensures Apply(R, t, M, VAdd(R, x, y)) == VAdd(R, Apply(R, t, M, x), Apply(R, t, M, y))
  {
    forall i: nat | i < t
      ensures Dot(R, t, M, VAdd(R, x, y), i, t) == R.add(Dot(R, t, M, x, i, t), Dot(R, t, M, y, i, t))
    {
      DotAdd(R, t, M, x, y, i, t);
    }
  }

  lemma ApplyScale<T(!new)>(R: Ring<T>, t: nat, M: seq<T>, s: T, x: Vec<T>)
    requires IsRing(R) && |M| == t * t && |x| == t
    ensures Apply(R, t, M, Scale(R, s, x)) == Scale(R, s, Apply(R, t, M, x))
  {
    forall i: nat | i < t
      ensures Dot(R, t, M, Scale(R, s, x), i, t) == R.mul(s, Dot(R, t, M, x, i, t))
    {
      DotScale(R, t, M, s, x, i, t);
    }
  }

  lemma MatrixLinear<T(!new)>(R: Ring<T>, t: nat, M: seq<T>)
    requires IsRing(R) && |M| == t * t
    ensures Linear(R, t, t, MatrixMap(R, t, M))
  {
    forall x: Vec<T>, y: Vec<T>, s: T | |x| == |y| == t
      ensures LinearAt(R, t, MatrixMap(R, t, M), x, y, s)
    {
      ApplyAdd(R, t, M, x, y);
      ApplyScale(R, t, M, s, x);
    }
  }

  // ----- The matrix of a linear map

  /** Column j holds the image of unit vector j. */
  function Tabulate<T>(R: Ring<T>, t: nat, L: Vec<T> -> Vec<T>): (M: seq<T>)
    requires forall j: nat | j < t :: |L(Unit(R, t, j))| == t
    ensures |M| == t * t
  {
    seq(t * t, k requires 0 <= k < t * t => (CellBound(t, k); L(Unit(R, t, k / t))[k % t]))
  }

  lemma CellBound(t: nat, k: nat)
    requires k < t * t
    ensures 0 < t && k / t < t
  {
    var q := k / t;
    assert k == q * t + k % t;
    Multiples(q - t + 1, t);
    assert (q - t + 1) * t == q * t - t * t + t;
  }

  lemma CellOf(t: nat, j: nat, i: nat)
    requires i < t
    ensures (j * t + i) / t == j && (j * t + i) % t == i
  {
    DivUnique(j * t + i, t, j, i);
  }

  lemma TabulateApplies<T(!new)>(R: Ring<T>, t: nat, L: Vec<T> -> Vec<T>, x: Vec<T>)
    requires IsRing(R) && Linear(R, t, t, L) && |x| == t
    requires forall j: nat | j < t :: |L(Unit(R, t, j))| == t
    ensures Apply(R, t, Tabulate(R, t, L), x) == L(x)
  {
    var M := Tabulate(R, t, L);
    MatrixLinear(R, t, M);
    forall j: nat | j < t
      ensures MatrixMap(R, t, M)(Unit(R, t, j)) == L(Unit(R, t, j))
    {
      forall i: nat | i < t
        ensures Apply(R, t, M, Unit(R, t, j))[i] == L(Unit(R, t, j))[i]
      {
        DotUnit(R, t, M, j, i, t);
        IndexBound(t, j, i);
        CellOf(t, j, i);
      }
    }
    AgreeOnUnits(R, t, t, MatrixMap(R, t, M), L, x);
  }

  // ----- Sparse matrices: a first row, a first column, ones on the rest of the diagonal

  /** The first n terms of a row times y. */
  function RowDot<T>(R: Ring<T>, row: Vec<T>, y: Vec<T>, n: nat): T
    requires n <= |row| && n <= |y|
  {
    if n == 0 then R.zero else R.add(RowDot(R, row, y, n - 1), R.mul(row[n - 1], y[n - 1]))
  }

  function SparseApply<T>(R: Ring<T>, row: Vec<T>, col: Vec<T>, y: Vec<T>): (z: Vec<T>)
    requires |row| == |y| == |col| + 1
    ensures |z| == |y|
  {
    [RowDot(R, row, y, |y|)] + seq(|col|, k requires 0 <= k < |col| => R.add(y[k + 1], R.mul(y[0], col[k])))
  }

  lemma {:induction false} RowDotAdd<T(!new)>(R: Ring<T>, row: Vec<T>, x: Vec<T>, y: Vec<T>, n: nat)
    requires IsRing(R) && |x| == |y| == |row| && n <= |row|
    ensures RowDot(R, row, VAdd(R, x, y), n) == R.add(RowDot(R, row, x, n), RowDot(R, row, y, n))
  {
    if n == 0 {
      AddZero(R, R.zero);
    } else {
      RowDotAdd(R, row, x, y, n - 1);
      MulAdd(R, row[n - 1], x[n - 1], y[n - 1]);
      AddSwap(R, RowDot(R, row, x, n - 1), RowDot(R, row, y, n - 1),
              R.mul(row[n - 1], x[n - 1]), R.mul(row[n - 1], y[n - 1]));
    }
  }

  lemma {:induction false} RowDotScale<T(!new)>(R: Ring<T>, row: Vec<T>, s: T, x: Vec<T>, n: nat)
    requires IsRing(R) && |x| == |row| && n <= |row|
    ensures RowDot(R, row, Scale(R, s, x), n) == R.mul(s, RowDot(R, row, x, n))
  {
    if n == 0 {
      MulZero(R, s);
    } else {
      RowDotScale(R, row, s, x, n - 1);
      var a, b := row[n - 1], x[n - 1];
      MulAssoc(R, a, s, b);
      MulComm(R, a, s);
      MulAssoc(R, s, a, b);
      MulAdd(R, s, RowDot(R, row, x, n - 1), R.mul(a, b));
    }
  }

  lemma {:induction false} RowDotUnit<T(!new)>(R: Ring<T>, row: Vec<T>, j: nat, n: nat)
    requires IsRing(R) && j < |row| && n <= |row|
    ensures RowDot(R, row, Unit(R, |row|, j), n) == if j < n then row[j] else R.zero
  {
    if n > 0 {
      RowDotUnit(R, row, j, n - 1);
      var m := row[n - 1];
      MulOne(R, m);
      MulZero(R, m);
      AddZero(R, m);
      AddZero(R, row[j]);
      AddZero(R, R.zero);
    }
  }

  function SparseMap<T>(R: Ring<T>, row: Vec<T>, col: Vec<T>): Vec<T> -> Vec<T>
    requires |row| == |col| + 1
  {
    x => if |x| == |row| then SparseApply(R, row, col, x) else x
  }

  lemma SparseAdd<T(!new)>(R: Ring<T>, row: Vec<T>, col: Vec<T>, x: Vec<T>, y: Vec<T>)
    requires IsRing(R) && |row| == |x| == |y| == |col| + 1
    ensures SparseApply(R, row, col, VAdd(R, x, y)) == VAdd(R, SparseApply(R, row, col, x), SparseApply(R, row, col, y))
  {
    RowDotAdd(R, row, x, y, |row|);
    forall k | 0 <= k < |col|
      ensures R.add(R.add(x[k + 1], y[k + 1]), R.mul(R.add(x[0], y[0]), col[k]))
           == R.add(R.add(x[k + 1], R.mul(x[0], col[k])), R.add(y[k + 1], R.mul(y[0], col[k])))
    {
      MulAdd(R, col[k], x[0], y[0]);
      AddSwap(R, x[k + 1], y[k + 1], R.mul(x[0], col[k]), R.mul(y[0], col[k]));
    }
  }

  lemma SparseScale<T(!new)>(R: Ring<T>, row: Vec<T>, col: Vec<T>, s: T, x: Vec<T>)
    requires IsRing(R) && |row| == |x| == |col| + 1
    ensures SparseApply(R, row, col, Scale(R, s, x)) == Scale(R, s, SparseApply(R, row, col, x))
  {
    RowDotScale(R, row, s, x, |row|);
    forall k | 0 <= k < |col|
      ensures R.add(R.mul(s, x[k + 1]), R.mul(R.mul(s, x[0]), col[k]))
           == R.mul(s, R.add(x[k + 1], R.mul(x[0], col[k])))
    {
      MulAssoc(R, s, x[0], col[k]);
      MulAdd(R, s, x[k + 1], R.mul(x[0], col[k]));
    }
  }

  lemma SparseLinear<T(!new)>(R: Ring<T>, row: Vec<T>, col: Vec<T>)
    requires IsRing(R) && |row| == |col| + 1
    ensures Linear(R, |row|, |row|, SparseMap(R, row, col))
  {
    forall x: Vec<T>, y: Vec<T>, s: T | |x| == |y| == |row|
      ensures LinearAt(R, |row|, SparseMap(R, row, col), x, y, s)
    {
      SparseAdd(R, row, col, x, y);
      SparseScale(R, row, col, s, x);
    }
  }

  // ----- Block matrices [1 0; 0 N]

  function Block<T>(R: Ring<T>, N: seq<T>, x: Vec<T>): (y: Vec<T>)
    requires |x| >= 1 && |N| == (|x| - 1) * (|x| - 1)
    ensures |y| == |x|
  {
    [x[0]] + Apply(R, |x| - 1, N, x[1..])
  }

  lemma BlockAdd<T(!new)>(R: Ring<T>, N: seq<T>, x: Vec<T>, y: Vec<T>)
    requires IsRing(R) && |x| == |y| >= 1 && |N| == (|x| - 1) * (|x| - 1)
    ensures Block(R, N, VAdd(R, x, y)) == VAdd(R, Block(R, N, x), Block(R, N, y))
  {
    assert VAdd(R, x, y)[1..] == VAdd(R, x[1..], y[1..]);
    ApplyAdd(R, |x| - 1, N, x[1..], y[1..]);
  }

  lemma BlockScale<T(!new)>(R: Ring<T>, N: seq<T>, s: T, x: Vec<T>)
    requires IsRing(R) && |x| >= 1 && |N| == (|x| - 1) * (|x| - 1)
    ensures Block(R, N, Scale(R, s, x)) == Scale(R, s, Block(R, N, x))
  {
    assert Scale(R, s, x)[1..] == Scale(R, s, x[1..]);
    ApplyScale(R, |x| - 1, N, s, x[1..]);
  }

  // ----- Inverse matrices

  ghost predicate InverseAt<T>(R: Ring<T>, t: nat, M: seq<T>, Minv: seq<T>, x: Vec<T>)
    requires |M| == |Minv| == t * t && |x| == t
  {
    Apply(R, t, M, Apply(R, t, Minv, x)) == x && Apply(R, t, Minv, Apply(R, t, M, x)) == x
  }

  ghost predicate InverseMatrix<T(!new)>(R: Ring<T>, t: nat, M: seq<T>, Minv: seq<T>) {
    |M| == |Minv| == t * t && forall x: Vec<T> {:trigger InverseAt(R, t, M, Minv, x)} | |x| == t :: InverseAt(R, t, M, Minv, x)
  }
}
