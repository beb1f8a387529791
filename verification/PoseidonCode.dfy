/**
The imperative permutation over flat tables, proved to compute `Poseidon.Permuted` of the
round-by-round tables that the flat ones spell.
 */
module PoseidonCode {
  import opened Arithmetic
  import opened Options
  import opened Rings
  import opened Matrices
  import P = Poseidon

  /** The parameters of one state width as shipped.  The S-box exponent is always 5. */
  datatype Config<T> = Config(t: nat, rf: nat, rp: nat, rc: seq<T>, mds: seq<T>, presparse: seq<T>, sparse: seq<T>)
  {
    const half: nat := rf / 2

    ghost predicate WellFormed() {
      && t >= 1
      && rf >= 2
      && rf % 2 == 0
      && |rc| == rf * t + rp
      && |mds| == |presparse| == t * t
      && |sparse| == (2 * t - 1) * rp
    }
  }

  // ----- Reading the flat tables

  /** Where round r's constants, matrix row and matrix column start. */
  function EarlyAt<T>(c: Config<T>, r: nat): nat { c.t * r }

  function PartialAt<T>(c: Config<T>, r: nat): nat { (c.half + 1) * c.t + r }

  function LateAt<T>(c: Config<T>, r: nat): nat { (c.half + 1) * c.t + c.rp + r * c.t }

  function RowAt<T>(c: Config<T>, r: nat): nat
    requires c.t >= 1
  {
    (2 * c.t - 1) * r
  }

  lemma EarlyFits<T>(c: Config<T>, r: nat)
    requires c.WellFormed() && r <= c.half
    ensures EarlyAt(c, r) + c.t <= |c.rc|
  {
    MulSplit(c.half + 1, c.half - 1, c.t);
    MulSplit(r + 1, c.half - r, c.t);
    MulSplit(r, 1, c.t);
  }

  lemma PartialFits<T>(c: Config<T>, r: nat)
    requires c.WellFormed() && r < c.rp
    ensures PartialAt(c, r) < |c.rc|
  {
    MulSplit(c.half + 1, c.half - 1, c.t);
  }

  lemma LateFits<T>(c: Config<T>, r: nat)
    requires c.WellFormed() && r < c.half - 1
    ensures LateAt(c, r) + c.t <= |c.rc|
  {
    MulSplit(c.half + 1, c.half - 1, c.t);
    MulSplit(r + 1, c.half - 2 - r, c.t);
    MulSplit(r, 1, c.t);
  }

  lemma RowFits<T>(c: Config<T>, r: nat)
    requires c.WellFormed() && r < c.rp
    ensures RowAt(c, r) + 2 * c.t - 1 <= |c.sparse|
  {
    MulSplit(r + 1, c.rp - r - 1, 2 * c.t - 1);
    MulSplit(r, 1, 2 * c.t - 1);
  }

  /** k is what xs holds from `start` on. */
  ghost predicate Window<T>(xs: seq<T>, start: nat, k: seq<T>) {
    start + |k| <= |xs| && forall i | 0 <= i < |k| :: xs[start + i] == k[i]
  }

  ghost function EarlyConst<T>(c: Config<T>, r: nat): (k: Vec<T>)
    requires c.WellFormed() && r <= c.half
    ensures |k| == c.t && Window(c.rc, EarlyAt(c, r), k)
  {
    EarlyFits(c, r);
    c.rc[EarlyAt(c, r)..EarlyAt(c, r) + c.t]
  }

  ghost function PartialConst<T>(c: Config<T>, r: nat): T
    requires c.WellFormed() && r < c.rp
  {
    PartialFits(c, r);
    c.rc[PartialAt(c, r)]
  }

  ghost function LateConst<T>(c: Config<T>, r: nat): (k: Vec<T>)
    requires c.WellFormed() && r < c.half - 1
    ensures |k| == c.t && Window(c.rc, LateAt(c, r), k)
  {
    LateFits(c, r);
    c.rc[LateAt(c, r)..LateAt(c, r) + c.t]
  }

  ghost function Row<T>(c: Config<T>, r: nat): (row: Vec<T>)
    requires c.WellFormed() && r < c.rp
    ensures |row| == c.t
  {
    RowFits(c, r);
    c.sparse[RowAt(c, r)..RowAt(c, r) + c.t]
  }

  ghost function Col<T>(c: Config<T>, r: nat): (col: Vec<T>)
    requires c.WellFormed() && r < c.rp
    ensures |col| == c.t - 1
  {
    RowFits(c, r);
    c.sparse[RowAt(c, r) + c.t..RowAt(c, r) + 2 * c.t - 1]
  }

  /** The round-by-round tables that flat tables spell. */
  ghost function Parsed<T>(c: Config<T>): (p: P.Tables<T>)
    requires c.WellFormed()
    ensures p.Valid()
  {
    P.Tables(c.t,
      seq(c.half + 1, r requires 0 <= r <= c.half => EarlyConst(c, r)),
      seq(c.rp, r requires 0 <= r < c.rp => PartialConst(c, r)),
      seq(c.half - 1, r requires 0 <= r < c.half - 1 => LateConst(c, r)),
      c.mds, c.presparse,
      seq(c.rp, r requires 0 <= r < c.rp => Row(c, r)),
      seq(c.rp, r requires 0 <= r < c.rp => Col(c, r)))
  }

  // ----- The code

  method SboxInPlace<T>(R: Ring<T>, state: array<T>)
    modifies state
    ensures state[..] == P.SboxAll(R, old(state[..]))
  {
    for i := 0 to state.Length
      invariant forall k | 0 <= k < i :: state[k] == P.Pow5(R, old(state[k]))
      invariant forall k | i <= k < state.Length :: state[k] == old(state[k])
    {
      state[i] := P.Pow5(R, state[i]);
    }
  }

  method AddInPlace<T>(R: Ring<T>, state: array<T>, rc: seq<T>, offset: nat, ghost k: Vec<T>)
    requires |k| == state.Length && Window(rc, offset, k)
    modifies state
    ensures state[..] == VAdd(R, old(state[..]), k)
  {
    for i := 0 to state.Length
      invariant forall j | 0 <= j < i :: state[j] == R.add(old(state[j]), k[j])
      invariant forall j | i <= j < state.Length :: state[j] == old(state[j])
    {
      state[i] := R.add(state[i], rc[offset + i]);
    }
  }

  method ApplyMatrix<T>(R: Ring<T>, M: seq<T>, state: array<T>, t: nat) returns (out: array<T>)
    requires |M| == t * t && state.Length == t
    ensures fresh(out) && out[..] == Apply(R, t, M, state[..])
  {
    ghost var x := state[..];
    out := new T[t](_ => R.zero);
    for i := 0 to t
      invariant state[..] == x
      invariant forall k: nat | k < i :: out[k] == Dot(R, t, M, x, k, t)
    {
      var acc := R.zero;
      for j := 0 to t
        invariant acc == Dot(R, t, M, x, i, j)
      {
        acc := R.add(acc, R.mul(state[j], Entry(t, M, j, i)));
      }
      out[i] := acc;
    }
  }

  method FullRoundInto<T>(R: Ring<T>, c: Config<T>, state: array<T>, offset: nat, M: seq<T>, ghost k: Vec<T>)
    returns (next: array<T>)
    requires state.Length == c.t && |M| == c.t * c.t && |k| == c.t && Window(c.rc, offset, k)
    modifies state
    ensures fresh(next)
    ensures next[..] == P.FullRound(R, c.t, M, k, old(state[..]))
  {
    SboxInPlace(R, state);
    AddInPlace(R, state, c.rc, offset, k);
    next := ApplyMatrix(R, M, state, c.t);
  }

  method EarlyRounds<T>(R: Ring<T>, c: Config<T>, input: array<T>, ghost x: Vec<T>) returns (state: array<T>)
    requires c.WellFormed() && input.Length == |x| == c.t
    requires input[..] == P.Early(R, Parsed(c), x, 0)
    modifies input
    ensures state == input || fresh(state)
    ensures state.Length == c.t && state[..] == P.Early(R, Parsed(c), x, c.half - 1)
  {
    ghost var p := Parsed(c);
    state := input;
    for r := 0 to c.half - 1
      invariant state == input || fresh(state)
      invariant state.Length == c.t && state[..] == P.Early(R, p, x, r)
    {
      state := FullRoundInto(R, c, state, EarlyAt(c, r + 1), c.mds, EarlyConst(c, r + 1));
    }
  }

  /** The last full round of the first half, through the dense joining matrix. */
  method JoiningRound<T>(R: Ring<T>, c: Config<T>, state: array<T>) returns (next: array<T>)
    requires c.WellFormed() && state.Length == c.t
    modifies state
    ensures fresh(next)
    ensures next[..] == P.FullRound(R, c.t, c.presparse, EarlyConst(c, c.half), old(state[..]))
  {
    next := FullRoundInto(R, c, state, EarlyAt(c, c.half), c.presparse, EarlyConst(c, c.half));
  }

  /** The initial add and the first half of the full rounds. */
  method FirstRounds<T>(R: Ring<T>, c: Config<T>, input: array<T>) returns (state: array<T>)
    requires c.WellFormed() && input.Length == c.t
    modifies input
    ensures fresh(state) && state[..] == P.FirstHalf(R, Parsed(c), old(input[..]))
  {
    hide P.FullRound, VAdd;
    ghost var x := input[..];
    AddInPlace(R, input, c.rc, EarlyAt(c, 0), EarlyConst(c, 0));
    var early := EarlyRounds(R, c, input, x);
    state := JoiningRound(R, c, early);
  }

  /** The new first element of a partial round. */
  method DotRow<T>(R: Ring<T>, sparse: seq<T>, base: nat, state: array<T>, ghost row: Vec<T>) returns (new0: T)
    requires |row| == state.Length && Window(sparse, base, row)
    ensures new0 == RowDot(R, row, state[..], state.Length)
  {
    new0 := R.zero;
    for j := 0 to state.Length
      invariant new0 == RowDot(R, row, state[..], j)
    {
      new0 := R.add(new0, R.mul(sparse[base + j], state[j]));
    }
  }

  /** One partial round, in place. */
  method PartialRoundInPlace<T>(R: Ring<T>, c: Config<T>, state: array<T>, r: nat)
    requires c.WellFormed() && state.Length == c.t && r < c.rp
    modifies state
    ensures state[..] == P.PartialRound(R, Row(c, r), Col(c, r), PartialConst(c, r), old(state[..]))
  {
    hide RowDot;
    var t, base := c.t, RowAt(c, r);
    ghost var row, col := Row(c, r), Col(c, r);
    PartialFits(c, r);
    RowFits(c, r);
    state[0] := P.Pow5(R, state[0]);
    state[0] := R.add(state[0], c.rc[PartialAt(c, r)]);
    ghost var y := state[..];
    assert y == old(state[..])[0 := R.add(P.Pow5(R, old(state[0])), PartialConst(c, r))];

    var new0 := DotRow(R, c.sparse, base, state, row);
    for k := 1 to t
      invariant state[0] == y[0]
      invariant forall i | 1 <= i < k :: state[i] == R.add(y[i], R.mul(y[0], col[i - 1]))
      invariant forall i | k <= i < t :: state[i] == y[i]
    {
      state[k] := R.add(state[k], R.mul(state[0], c.sparse[base + t + k - 1]));
    }
    state[0] := new0;
    assert state[..] == SparseApply(R, row, col, y);
  }

  method PartialRounds<T>(R: Ring<T>, c: Config<T>, state: array<T>)
    requires c.WellFormed() && state.Length == c.t
    modifies state
    ensures state[..] == P.Partial(R, Parsed(c), old(state[..]), c.rp)
  {
    hide P.PartialRound;
    ghost var y, p := state[..], Parsed(c);
    for r := 0 to c.rp
      invariant state[..] == P.Partial(R, p, y, r)
    {
      PartialRoundInPlace(R, c, state, r);
    }
  }

  method LateRounds<T>(R: Ring<T>, c: Config<T>, input: array<T>) returns (state: array<T>)
    requires c.WellFormed() && input.Length == c.t
    modifies input
    ensures state == input || fresh(state)
    ensures state.Length == c.t && state[..] == P.Late(R, Parsed(c), old(input[..]), c.half - 1)
  {
    ghost var x, p := input[..], Parsed(c);
    state := input;
    for r := 0 to c.half - 1
      invariant state == input || fresh(state)
      invariant state.Length == c.t && state[..] == P.Late(R, p, x, r)
    {
      state := FullRoundInto(R, c, state, LateAt(c, r), c.mds, LateConst(c, r));
    }
  }

  /** The second half of the full rounds; the last adds no constants. */
  method LastRounds<T>(R: Ring<T>, c: Config<T>, input: array<T>) returns (state: array<T>)
    requires c.WellFormed() && input.Length == c.t
    modifies input
    ensures fresh(state) && state[..] == P.SecondHalf(R, Parsed(c), old(input[..]))
  {
    hide P.Late, P.SboxAll, Apply;
    var late := LateRounds(R, c, input);
    SboxInPlace(R, late);
    state := ApplyMatrix(R, c.mds, late, c.t);
  }

  method Permute<T>(R: Ring<T>, c: Config<T>, input: array<T>) returns (out: array<T>)
    requires c.WellFormed() && input.Length == c.t
    modifies input
    ensures fresh(out) && out[..] == P.Permuted(R, Parsed(c), old(input[..]))
  {
    var state := FirstRounds(R, c, input);
    PartialRounds(R, c, state);
    out := LastRounds(R, c, state);
  }

  /** Looks the width up in the parameter table; an unsupported width is an error. */
  method HashInputs<T>(R: Ring<T>, configs: map<nat, Config<T>>, inputs: seq<T>) returns (hash: Option<T>)
    requires forall t | t in configs :: configs[t].WellFormed() && configs[t].t == t
    ensures |inputs| + 1 !in configs ==> hash == None
    ensures |inputs| + 1 in configs ==> hash == Some(P.Hash(R, Parsed(configs[|inputs| + 1]), inputs))
    ensures forall s: seq<T> {:trigger s[1..]} |
              |inputs| + 1 in configs && |s| == |inputs| + 1 && s[0] == R.zero && s[1..] == inputs ::
              hash == Some(P.Permuted(R, Parsed(configs[|inputs| + 1]), s)[0])
  {
    var t := |inputs| + 1;
    if t !in configs {
      return None;
    }
    var state := new T[t](i => if 0 < i <= |inputs| then inputs[i - 1] else R.zero);
    assert state[..] == [R.zero] + inputs;
    var out := Permute(R, configs[t], state);
    hash := Some(out[0]);
    forall s: seq<T> {:trigger s[1..]} | |s| == |inputs| + 1 && s[0] == R.zero && s[1..] == inputs
      ensures hash == Some(P.Permuted(R, Parsed(configs[|inputs| + 1]), s)[0])
    {
      assert s == [s[0]] + s[1..];
    }
  }
}
