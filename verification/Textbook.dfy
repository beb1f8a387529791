/**
Textbook Poseidon ("Poseidon: A New Hash Function for Zero-Knowledge Proof Systems",
section 2): every round adds a full vector of constants, applies the S-box (to the first
element only in a partial round) and multiplies by the dense matrix.  Proves that the
optimised permutation computes it whenever its tables factor the cipher.
 */
module Textbook {
  import opened Rings
  import opened Matrices
  import opened Poseidon

  datatype Cipher<T> = Cipher(t: nat, half: nat, rp: nat, mds: seq<T>, c: seq<Vec<T>>)
  {
    const rounds: nat := 2 * half + rp

    ghost predicate Valid() {
      && t >= 1
      && half >= 1
      && |mds| == t * t
      && |c| == rounds
      && forall r | 0 <= r < rounds :: |c[r]| == t
    }
  }

  function Round<T>(R: Ring<T>, C: Cipher<T>, x: Vec<T>, r: nat): (y: Vec<T>)
    requires C.Valid() && |x| == C.t && r < C.rounds
    ensures |y| == C.t
  {
    var s := VAdd(R, x, C.c[r]);
    Apply(R, C.t, C.mds, if C.half <= r < C.half + C.rp then SboxFirst(R, s) else SboxAll(R, s))
  }

  /** The state entering round n. */
  function State<T>(R: Ring<T>, C: Cipher<T>, x: Vec<T>, n: nat): (y: Vec<T>)
    requires C.Valid() && |x| == C.t && n <= C.rounds
    ensures |y| == C.t
  {
    if n == 0 then x else Round(R, C, State(R, C, x, n - 1), n - 1)
  }

  function Encrypt<T>(R: Ring<T>, C: Cipher<T>, x: Vec<T>): (y: Vec<T>)
    requires C.Valid() && |x| == C.t
    ensures |y| == C.t
  {
    State(R, C, x, C.rounds)
  }

  /**
   * How optimised tables arise from a cipher.  Before partial round r the optimised state is
   * [1 0; 0 N[r]] (x + c) + w[r], where x is the textbook state, c its round constants and
   * w[r] constants still in transit, never in the first element.
   */
  datatype Factors<T> = Factors(N: seq<seq<T>>, w: seq<Vec<T>>)

  ghost predicate Shapes<T>(C: Cipher<T>, P: Tables<T>, F: Factors<T>) {
    && C.Valid()
    && P.Valid()
    && P.t == C.t && P.half == C.half && P.rp == C.rp && P.mds == C.mds
    && |F.N| == |F.w| == C.rp + 1
    && (forall r | 0 <= r <= C.rp :: |F.N[r]| == (C.t - 1) * (C.t - 1))
    && (forall r | 0 <= r <= C.rp :: |F.w[r]| == C.t)
  }

  /** The middle constants and joining matrix. */
  ghost predicate JoinFactors<T>(R: Ring<T>, C: Cipher<T>, P: Tables<T>, F: Factors<T>)
    requires Shapes(C, P, F)
  {
    && (forall j: nat | j < C.t ::
          Apply(R, C.t, P.presparse, Unit(R, C.t, j)) == Block(R, F.N[0], Apply(R, C.t, C.mds, Unit(R, C.t, j))))
    && Apply(R, C.t, P.presparse, P.early[C.half]) == VAdd(R, Block(R, F.N[0], C.c[C.half]), F.w[0])
  }

  /** The sparse matrix and constant of partial round r. */
  ghost predicate PartialFactors<T>(R: Ring<T>, C: Cipher<T>, P: Tables<T>, F: Factors<T>, r: nat)
    requires Shapes(C, P, F) && r < C.rp
  {
    && (forall j: nat | j < C.t ::
          SparseApply(R, P.rows[r], P.cols[r], Block(R, F.N[r], Unit(R, C.t, j)))
            == Block(R, F.N[r + 1], Apply(R, C.t, C.mds, Unit(R, C.t, j))))
    && SparseApply(R, P.rows[r], P.cols[r], F.w[r][0 := P.ks[r]])
         == VAdd(R, Block(R, F.N[r + 1], C.c[C.half + r + 1]), F.w[r + 1])
  }

  /** Full-round constants pushed through the dense matrix they precede in the code. */
  ghost predicate EarlyFactors<T>(R: Ring<T>, C: Cipher<T>, P: Tables<T>)
    requires C.Valid() && P.Valid() && P.t == C.t && P.half == C.half
  {
    && P.early[0] == C.c[0]
    && forall r | 1 <= r < C.half :: Apply(R, C.t, C.mds, P.early[r]) == C.c[r]
  }

  ghost predicate LateFactors<T>(R: Ring<T>, C: Cipher<T>, P: Tables<T>)
    requires C.Valid() && P.Valid() && P.t == C.t && P.half == C.half
  {
    forall r | 0 <= r < C.half - 1 :: Apply(R, C.t, C.mds, P.late[r]) == C.c[C.half + C.rp + r + 1]
  }

  /** Finitely many equations between table entries, enough for the code to be the cipher. */
  ghost predicate Factor<T>(R: Ring<T>, C: Cipher<T>, P: Tables<T>, F: Factors<T>) {
    && Shapes(C, P, F)
    && EarlyFactors(R, C, P)
    && JoinFactors(R, C, P, F)
    && (forall r: nat | r < C.rp :: PartialFactors(R, C, P, F, r))
    && (forall r | 0 <= r <= C.rp :: F.w[r][0] == R.zero)
    && (forall j: nat | j < C.t :: Block(R, F.N[C.rp], Unit(R, C.t, j)) == Unit(R, C.t, j))
    && (forall i | 0 <= i < C.t :: F.w[C.rp][i] == R.zero)
    && LateFactors(R, C, P)
  }

  // ----- First half

  lemma {:induction false} EarlyIsState<T(!new)>(R: Ring<T>, C: Cipher<T>, P: Tables<T>, x: Vec<T>, n: nat)
    requires IsRing(R) && C.Valid() && P.Valid() && P.t == C.t && P.half == C.half && P.mds == C.mds
    requires EarlyFactors(R, C, P) && |x| == C.t && n < C.half
    ensures Early(R, P, x, n) == VAdd(R, State(R, C, x, n), C.c[n])
  {
    hide Apply, SboxAll, VAdd;
    if n > 0 {
      EarlyIsState(R, C, P, x, n - 1);
      ApplyAdd(R, C.t, C.mds, SboxAll(R, Early(R, P, x, n - 1)), P.early[n]);
    }
  }

  function BlockMap<T>(R: Ring<T>, t: nat, N: seq<T>): Vec<T> -> Vec<T>
    requires t >= 1 && |N| == (t - 1) * (t - 1)
  {
    x => if |x| == t then Block(R, N, x) else x
  }

  lemma BlockLinear<T(!new)>(R: Ring<T>, t: nat, N: seq<T>)
    requires IsRing(R) && t >= 1 && |N| == (t - 1) * (t - 1)
    ensures Linear(R, t, t, BlockMap(R, t, N))
  {
    forall x: Vec<T>, y: Vec<T>, s: T | |x| == |y| == t
      ensures LinearAt(R, t, BlockMap(R, t, N), x, y, s)
    {
      BlockAdd(R, N, x, y);
      BlockScale(R, N, s, x);
    }
  }

  function Compose<T>(F: Vec<T> -> Vec<T>, G: Vec<T> -> Vec<T>): Vec<T> -> Vec<T> {
    x => F(G(x))
  }

  lemma ComposeLinear<T(!new)>(R: Ring<T>, n: nat, F: Vec<T> -> Vec<T>, G: Vec<T> -> Vec<T>)
    requires Linear(R, n, n, F) && Linear(R, n, n, G)
    ensures Linear(R, n, n, Compose(F, G))
  {
    forall x: Vec<T>, y: Vec<T>, s: T | |x| == |y| == n
      ensures LinearAt(R, n, Compose(F, G), x, y, s)
    {
      assert LinearAt(R, n, G, x, y, s);
      assert LinearAt(R, n, F, G(x), G(y), s);
    }
  }

  lemma JoinIsBlock<T(!new)>(R: Ring<T>, C: Cipher<T>, P: Tables<T>, F: Factors<T>, x: Vec<T>)
    requires IsRing(R) && Shapes(C, P, F) && JoinFactors(R, C, P, F) && |x| == C.t
    ensures Apply(R, C.t, P.presparse, x) == Block(R, F.N[0], Apply(R, C.t, C.mds, x))
  {
    hide Apply, Block, Unit, Linear;
    var t := C.t;
    var D, M := BlockMap(R, t, F.N[0]), MatrixMap(R, t, C.mds);
    BlockLinear(R, t, F.N[0]);
    MatrixLinear(R, t, C.mds);
    MatrixLinear(R, t, P.presparse);
    ComposeLinear(R, t, D, M);
    AgreeOnUnits(R, t, t, MatrixMap(R, t, P.presparse), Compose(D, M), x);
  }

  /** The joining round, from the S-box outputs s. */
  lemma JoinStep<T(!new)>(R: Ring<T>, C: Cipher<T>, P: Tables<T>, F: Factors<T>, s: Vec<T>)
    requires IsRing(R) && Shapes(C, P, F) && JoinFactors(R, C, P, F) && |s| == C.t
    ensures Apply(R, C.t, P.presparse, VAdd(R, s, P.early[C.half])) == Masked(R, C, F, Apply(R, C.t, C.mds, s), 0)
  {
    hide Apply, Block, VAdd, Unit;
    var y, k, c := Apply(R, C.t, C.mds, s), P.early[C.half], C.c[C.half];
    calc {
      Apply(R, C.t, P.presparse, VAdd(R, s, k));
      { ApplyAdd(R, C.t, P.presparse, s, k); }
      VAdd(R, Apply(R, C.t, P.presparse, s), Apply(R, C.t, P.presparse, k));
      { JoinIsBlock(R, C, P, F, s); }
      VAdd(R, Block(R, F.N[0], y), VAdd(R, Block(R, F.N[0], c), F.w[0]));
      { VAddAssoc(R, Block(R, F.N[0], y), Block(R, F.N[0], c), F.w[0]); }
      VAdd(R, VAdd(R, Block(R, F.N[0], y), Block(R, F.N[0], c)), F.w[0]);
      { BlockAdd(R, F.N[0], y, c); }
      Masked(R, C, F, y, 0);
    }
  }

  /** The state entering the partial rounds. */
  lemma FirstHalfIsState<T(!new)>(R: Ring<T>, C: Cipher<T>, P: Tables<T>, F: Factors<T>, x: Vec<T>)
    requires IsRing(R) && Shapes(C, P, F) && EarlyFactors(R, C, P) && JoinFactors(R, C, P, F) && |x| == C.t
    ensures FirstHalf(R, P, x) == Masked(R, C, F, State(R, C, x, C.half), 0)
  {
    hide Apply, Block, VAdd, Unit, SboxAll, Masked;
    var y := Early(R, P, x, C.half - 1);
    EarlyIsState(R, C, P, x, C.half - 1);
    assert State(R, C, x, C.half) == Apply(R, C.t, C.mds, SboxAll(R, y));
    JoinStep(R, C, P, F, SboxAll(R, y));
  }

  // ----- Partial rounds

  /** The optimised state before partial round r, for textbook state x. */
  ghost function Masked<T>(R: Ring<T>, C: Cipher<T>, F: Factors<T>, x: Vec<T>, r: nat): (y: Vec<T>)
    requires C.Valid() && |x| == C.t && r <= C.rp
    requires r < |F.N| && r < |F.w| && |F.N[r]| == (C.t - 1) * (C.t - 1) && |F.w[r]| == C.t
    ensures |y| == C.t
  {
    VAdd(R, Block(R, F.N[r], VAdd(R, x, C.c[C.half + r])), F.w[r])
  }

  lemma SparseFactors<T(!new)>(R: Ring<T>, t: nat, row: Vec<T>, col: Vec<T>, N: seq<T>, N': seq<T>, M: seq<T>, x: Vec<T>)
    requires IsRing(R) && t >= 1 && |row| == |x| == t && |col| == t - 1
    requires |N| == |N'| == (t - 1) * (t - 1) && |M| == t * t
    requires forall j: nat | j < t ::
      SparseApply(R, row, col, Block(R, N, Unit(R, t, j))) == Block(R, N', Apply(R, t, M, Unit(R, t, j)))
    ensures SparseApply(R, row, col, Block(R, N, x)) == Block(R, N', Apply(R, t, M, x))
  {
    hide Apply, Block, SparseApply, Unit, Linear;
    var D, D', A, S := BlockMap(R, t, N), BlockMap(R, t, N'), MatrixMap(R, t, M), SparseMap(R, row, col);
    BlockLinear(R, t, N);
    BlockLinear(R, t, N');
    MatrixLinear(R, t, M);
    SparseLinear(R, row, col);
    ComposeLinear(R, t, S, D);
    ComposeLinear(R, t, D', A);
    AgreeOnUnits(R, t, t, Compose(S, D), Compose(D', A), x);
  }

  lemma SparseIsBlock<T(!new)>(R: Ring<T>, C: Cipher<T>, P: Tables<T>, F: Factors<T>, r: nat, x: Vec<T>)
    requires IsRing(R) && Shapes(C, P, F) && r < C.rp && PartialFactors(R, C, P, F, r) && |x| == C.t
    ensures SparseApply(R, P.rows[r], P.cols[r], Block(R, F.N[r], x)) == Block(R, F.N[r + 1], Apply(R, C.t, C.mds, x))
  {
    hide Apply, Block, SparseApply, Unit, VAdd;
    SparseFactors(R, C.t, P.rows[r], P.cols[r], F.N[r], F.N[r + 1], C.mds, x);
  }

  /** The S-box on the first element passes the block matrix and the constants in transit. */
  lemma SboxPassesMask<T(!new)>(R: Ring<T>, N: seq<T>, w: Vec<T>, k: T, s: Vec<T>)
    requires IsRing(R) && |s| == |w| >= 1 && |N| == (|s| - 1) * (|s| - 1) && w[0] == R.zero
    ensures var y := VAdd(R, Block(R, N, s), w);
            y[0 := R.add(Pow5(R, y[0]), k)] == VAdd(R, Block(R, N, SboxFirst(R, s)), w[0 := k])
  {
    AddZero(R, s[0]);
    assert SboxFirst(R, s)[1..] == s[1..];
  }

  lemma PartialStep<T(!new)>(R: Ring<T>, C: Cipher<T>, P: Tables<T>, F: Factors<T>, x: Vec<T>, r: nat)
    requires IsRing(R) && Factor(R, C, P, F) && |x| == C.t && r < C.rp
    ensures PartialRound(R, P.rows[r], P.cols[r], P.ks[r], Masked(R, C, F, x, r))
         == Masked(R, C, F, Round(R, C, x, C.half + r), r + 1)
  {
    hide Apply, Block, SparseApply, SboxAll, SboxFirst, VAdd, Pow5;
    var row, col, k := P.rows[r], P.cols[r], P.ks[r];
    var s := SboxFirst(R, VAdd(R, x, C.c[C.half + r]));
    var y := Apply(R, C.t, C.mds, s);
    var D := Block(R, F.N[r + 1], y);
    var c, w := C.c[C.half + r + 1], F.w[r + 1];
    assert PartialFactors(R, C, P, F, r);
    calc {
      PartialRound(R, row, col, k, Masked(R, C, F, x, r));
      { SboxPassesMask(R, F.N[r], F.w[r], k, VAdd(R, x, C.c[C.half + r])); }
      SparseApply(R, row, col, VAdd(R, Block(R, F.N[r], s), F.w[r][0 := k]));
      { SparseAdd(R, row, col, Block(R, F.N[r], s), F.w[r][0 := k]); }
      VAdd(R, SparseApply(R, row, col, Block(R, F.N[r], s)), SparseApply(R, row, col, F.w[r][0 := k]));
      { SparseIsBlock(R, C, P, F, r, s); }
      VAdd(R, D, VAdd(R, Block(R, F.N[r + 1], c), w));
      { VAddAssoc(R, D, Block(R, F.N[r + 1], c), w); }
      VAdd(R, VAdd(R, D, Block(R, F.N[r + 1], c)), w);
      { BlockAdd(R, F.N[r + 1], y, c); }
      Masked(R, C, F, y, r + 1);
    }
  }

  lemma {:induction false} PartialIsState<T(!new)>(R: Ring<T>, C: Cipher<T>, P: Tables<T>, F: Factors<T>, x: Vec<T>, n: nat)
    requires IsRing(R) && Factor(R, C, P, F) && |x| == C.t && n <= C.rp
    ensures Partial(R, P, FirstHalf(R, P, x), n) == Masked(R, C, F, State(R, C, x, C.half + n), n)
  {
    hide PartialRound, FirstHalf, Masked, Round;
    if n == 0 {
      FirstHalfIsState(R, C, P, F, x);
    } else {
      PartialIsState(R, C, P, F, x, n - 1);
      PartialStep(R, C, P, F, State(R, C, x, C.half + n - 1), n - 1);
    }
  }

  /** After the last partial round the mask is gone. */
  lemma Unmasked<T(!new)>(R: Ring<T>, C: Cipher<T>, P: Tables<T>, F: Factors<T>, x: Vec<T>)
    requires IsRing(R) && Factor(R, C, P, F) && |x| == C.t
    ensures Masked(R, C, F, x, C.rp) == VAdd(R, x, C.c[C.half + C.rp])
  {
    hide Block, Unit, PartialFactors, JoinFactors;
    var t, N, s := C.t, F.N[C.rp], VAdd(R, x, C.c[C.half + C.rp]);
    var I: Vec<T> -> Vec<T> := v => v;
    BlockLinear(R, t, N);
    assert Linear(R, t, t, I) by {
      forall u: Vec<T>, v: Vec<T>, a: T | |u| == |v| == t
        ensures LinearAt(R, t, I, u, v, a)
      {
      }
    }
    AgreeOnUnits(R, t, t, BlockMap(R, t, N), I, s);
    forall i | 0 <= i < t
      ensures VAdd(R, s, F.w[C.rp])[i] == s[i]
    {
      AddZero(R, s[i]);
    }
    assert VAdd(R, s, F.w[C.rp]) == s;
  }

  // ----- Second half

  lemma LateStep<T(!new)>(R: Ring<T>, C: Cipher<T>, P: Tables<T>, x: Vec<T>, r: nat)
    requires IsRing(R) && C.Valid() && P.Valid() && P.t == C.t && P.half == C.half && P.mds == C.mds
    requires LateFactors(R, C, P) && |x| == C.t && r < C.half - 1
    ensures FullRound(R, C.t, C.mds, P.late[r], VAdd(R, x, C.c[C.half + C.rp + r]))
         == VAdd(R, Round(R, C, x, C.half + C.rp + r), C.c[C.half + C.rp + r + 1])
  {
    hide Apply, SboxAll, VAdd;
    ApplyAdd(R, C.t, C.mds, SboxAll(R, VAdd(R, x, C.c[C.half + C.rp + r])), P.late[r]);
  }

  /** Late full rounds started from the textbook state entering them. */
  lemma {:induction false} LateIsState<T(!new)>(R: Ring<T>, C: Cipher<T>, P: Tables<T>, x: Vec<T>, n: nat)
    requires IsRing(R) && C.Valid() && P.Valid() && P.t == C.t && P.half == C.half && P.mds == C.mds
    requires LateFactors(R, C, P) && |x| == C.t && n < C.half
    ensures var y := VAdd(R, State(R, C, x, C.half + C.rp), C.c[C.half + C.rp]);
            Late(R, P, y, n) == VAdd(R, State(R, C, x, C.half + C.rp + n), C.c[C.half + C.rp + n])
  {
    hide VAdd, FullRound, Round;
    if n > 0 {
      LateIsState(R, C, P, x, n - 1);
      LateStep(R, C, P, State(R, C, x, C.half + C.rp + n - 1), n - 1);
    }
  }

  /** The optimised permutation is textbook Poseidon, for every state, width and round count. */
  lemma PermutedIsEncrypt<T(!new)>(R: Ring<T>, C: Cipher<T>, P: Tables<T>, F: Factors<T>, x: Vec<T>)
    requires IsRing(R) && Factor(R, C, P, F) && |x| == C.t
    ensures Permuted(R, P, x) == Encrypt(R, C, x)
  {
    hide Unit, Early, Partial, FirstHalf, Late, VAdd, Apply, SboxAll, Block, Masked, PartialFactors, JoinFactors;
    PartialIsState(R, C, P, F, x, C.rp);
    Unmasked(R, C, P, F, State(R, C, x, C.half + C.rp));
    LateIsState(R, C, P, x, C.half - 1);
  }

  /** The hash of some inputs is element 0 of the encryption of the state that holds zero and then the inputs. */
  lemma HashIsEncrypt<T(!new)>(R: Ring<T>, C: Cipher<T>, P: Tables<T>, F: Factors<T>, inputs: seq<T>, s: Vec<T>)
    requires IsRing(R) && Factor(R, C, P, F) && |s| == |inputs| + 1 == C.t
    requires s[0] == R.zero && forall i | 0 <= i < |inputs| :: s[i + 1] == inputs[i]
    ensures Hash(R, P, inputs) == Encrypt(R, C, s)[0]
  {
    hide Permuted, Encrypt, Factor;
    assert P.Valid() && P.t == C.t by { FactorShapes(R, C, P, F); }
    assert s == [R.zero] + inputs;
    PermutedIsEncrypt(R, C, P, F, s);
  }

  lemma FactorShapes<T>(R: Ring<T>, C: Cipher<T>, P: Tables<T>, F: Factors<T>)
    requires Factor(R, C, P, F)
    ensures C.Valid() && P.Valid() && P.t == C.t
  {
  }
}
