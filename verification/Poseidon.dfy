/**
The optimised Poseidon permutation: round constants folded past the S-box, one sparse
matrix per partial round, and a dense matrix joining the halves.  `Permuted` is the
permutation as a function of its tables; module `PoseidonCode` has the imperative code.
 */
module Poseidon {
  import opened Rings
  import opened Matrices

  /**
   * The tables of one state width, round by round.  early[0] is the initial add and early[r]
   * is added after full round r - 1; ks[r] is added in partial round r, whose sparse matrix
   * has first row rows[r] and first column rows[r][0], cols[r]; late[r] is added in full
   * round r of the second half.
   */
  datatype Tables<T> = Tables(
    t: nat,
    early: seq<Vec<T>>, ks: seq<T>, late: seq<Vec<T>>,
    mds: seq<T>, presparse: seq<T>,
    rows: seq<Vec<T>>, cols: seq<Vec<T>>)
  {
    /** Half the number of full rounds. */
    const half: nat := |late| + 1

    const rp: nat := |ks|

    ghost predicate Valid() {
      && t >= 1
      && |mds| == |presparse| == t * t
      && |early| == half + 1
      && |rows| == |cols| == rp
      && (forall r | 0 <= r < |early| :: |early[r]| == t)
      && (forall r | 0 <= r < |late| :: |late[r]| == t)
      && (forall r | 0 <= r < |rows| :: |rows[r]| == t)
      && (forall r | 0 <= r < |cols| :: |cols[r]| == t - 1)
    }
  }

  function Pow5<T>(R: Ring<T>, x: T): T {
    var x2 := R.mul(x, x);
    var x4 := R.mul(x2, x2);
    R.mul(x, x4)
  }

  function SboxAll<T>(R: Ring<T>, x: Vec<T>): (y: Vec<T>)
    ensures |y| == |x|
  {
    seq(|x|, i requires 0 <= i < |x| => Pow5(R, x[i]))
  }

  function SboxFirst<T>(R: Ring<T>, x: Vec<T>): (y: Vec<T>)
    requires |x| >= 1
    ensures |y| == |x|
  {
    x[0 := Pow5(R, x[0])]
  }

  /** S-box on every element, then constants, then a dense matrix. */
  function FullRound<T>(R: Ring<T>, t: nat, M: seq<T>, k: Vec<T>, y: Vec<T>): (z: Vec<T>)
    requires |M| == t * t && |k| == |y| == t
    ensures |z| == t
  {
    Apply(R, t, M, VAdd(R, SboxAll(R, y), k))
  }

  /** S-box and constant on the first element, then the sparse matrix. */
  function PartialRound<T>(R: Ring<T>, row: Vec<T>, col: Vec<T>, k: T, y: Vec<T>): (z: Vec<T>)
    requires |row| == |y| == |col| + 1
    ensures |z| == |y|
  {
    SparseApply(R, row, col, y[0 := R.add(Pow5(R, y[0]), k)])
  }

  /** The state after the initial add and n full rounds. */
  ghost function Early<T>(R: Ring<T>, P: Tables<T>, x: Vec<T>, n: nat): (y: Vec<T>)
    requires P.Valid() && |x| == P.t && n < P.half
    ensures |y| == P.t
  {
    if n == 0 then VAdd(R, x, P.early[0])
    else FullRound(R, P.t, P.mds, P.early[n], Early(R, P, x, n - 1))
  }

  ghost function Partial<T>(R: Ring<T>, P: Tables<T>, y: Vec<T>, n: nat): (z: Vec<T>)
    requires P.Valid() && |y| == P.t && n <= P.rp
    ensures |z| == P.t
  {
    if n == 0 then y
    else PartialRound(R, P.rows[n - 1], P.cols[n - 1], P.ks[n - 1], Partial(R, P, y, n - 1))
  }

  ghost function Late<T>(R: Ring<T>, P: Tables<T>, y: Vec<T>, n: nat): (z: Vec<T>)
    requires P.Valid() && |y| == P.t && n < P.half
    ensures |z| == P.t
  {
    if n == 0 then y
    else FullRound(R, P.t, P.mds, P.late[n - 1], Late(R, P, y, n - 1))
  }

  ghost function FirstHalf<T>(R: Ring<T>, P: Tables<T>, x: Vec<T>): (y: Vec<T>)
    requires P.Valid() && |x| == P.t
    ensures |y| == P.t
  {
    FullRound(R, P.t, P.presparse, P.early[P.half], Early(R, P, x, P.half - 1))
  }

  ghost function SecondHalf<T>(R: Ring<T>, P: Tables<T>, y: Vec<T>): (z: Vec<T>)
    requires P.Valid() && |y| == P.t
    ensures |z| == P.t
  {
    Apply(R, P.t, P.mds, SboxAll(R, Late(R, P, y, P.half - 1)))
  }

  ghost function Permuted<T>(R: Ring<T>, P: Tables<T>, x: Vec<T>): (y: Vec<T>)
    requires P.Valid() && |x| == P.t
    ensures |y| == P.t
  {
    SecondHalf(R, P, Partial(R, P, FirstHalf(R, P, x), P.rp))
  }

  /** The hash: permute [0, inputs...] and keep the first element. */
  ghost function Hash<T>(R: Ring<T>, P: Tables<T>, inputs: seq<T>): T
    requires P.Valid() && P.t == |inputs| + 1
  {
    Permuted(R, P, [R.zero] + inputs)[0]
  }
}
