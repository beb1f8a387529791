/**
Every set of round-by-round tables is spelt by some flat configuration, so what is proved of
the tables is reached by the imperative permutation.
 */
module Flattening {
  import opened Arithmetic
  import opened Rings
  import opened PoseidonCode
  import P = Poseidon
  import Textbook
  import Derivation

  function Concat<T>(vs: seq<seq<T>>): seq<T> {
    if |vs| == 0 then [] else Concat(vs[..|vs| - 1]) + vs[|vs| - 1]
  }

  ghost predicate Uniform<T>(vs: seq<seq<T>>, t: nat) {
    forall r | 0 <= r < |vs| :: |vs[r]| == t
  }

  lemma {:induction false} ConcatLength<T>(vs: seq<seq<T>>, t: nat)
    requires Uniform(vs, t)
    ensures |Concat(vs)| == |vs| * t
  {
    if |vs| > 0 {
      ConcatLength(vs[..|vs| - 1], t);
      MulSplit(|vs| - 1, 1, t);
    }
  }

  lemma {:induction false} ConcatBlock<T>(vs: seq<seq<T>>, t: nat, r: nat)
    requires Uniform(vs, t) && r < |vs|
    ensures 0 <= t * r && t * r + t <= |Concat(vs)|
    ensures Concat(vs)[t * r..t * r + t] == vs[r]
  {
    var prefix, last := vs[..|vs| - 1], vs[|vs| - 1];
    assert Concat(vs) == Concat(prefix) + last;
    ConcatLength(prefix, t);
    hide Concat;
    assert |Concat(prefix)| == t * (|vs| - 1);
    if r < |vs| - 1 {
      ConcatBlock(prefix, t, r);
      Slice(Concat(prefix), last, t * r, t * r + t);
    } else {
      assert t * r == |Concat(prefix)|;
    }
  }

  lemma Slice<T>(a: seq<T>, b: seq<T>, i: nat, j: nat)
    requires i <= j <= |a|
    ensures (a + b)[i..j] == a[i..j]
  {
  }

  function SparseBlocks<T>(p: P.Tables<T>): seq<seq<T>>
    requires |p.rows| == |p.cols|
  {
    seq(|p.rows|, r requires 0 <= r < |p.rows| => p.rows[r] + p.cols[r])
  }

  function Flattened<T>(p: P.Tables<T>): Config<T>
    requires |p.rows| == |p.cols|
  {
    Config(p.t, 2 * p.half, p.rp, Concat(p.early) + p.ks + Concat(p.late), p.mds, p.presparse, Concat(SparseBlocks(p)))
  }

  lemma FlattenedWellFormed<T>(p: P.Tables<T>)
    requires p.Valid()
    ensures Flattened(p).WellFormed()
    ensures |Concat(p.early)| == (p.half + 1) * p.t && |Concat(p.late)| == (p.half - 1) * p.t
  {
    hide Concat, SparseBlocks;
    ConcatLength(p.early, p.t);
    ConcatLength(p.late, p.t);
    SparseBlocksUniform(p);
    ConcatLength(SparseBlocks(p), 2 * p.t - 1);
    var h := p.half;
    assert 2 * h == (h + 1) + (h - 1);
    MulSplit(h + 1, h - 1, p.t);
    assert p.rp * (2 * p.t - 1) == (2 * p.t - 1) * p.rp;
  }

  lemma SparseBlocksUniform<T>(p: P.Tables<T>)
    requires p.Valid()
    ensures |SparseBlocks(p)| == p.rp && Uniform(SparseBlocks(p), 2 * p.t - 1)
    ensures forall r | 0 <= r < p.rp :: SparseBlocks(p)[r] == p.rows[r] + p.cols[r]
  {
  }

  lemma EarlyBack<T>(p: P.Tables<T>, r: nat)
    requires p.Valid() && r <= p.half && Flattened(p).WellFormed()
    ensures EarlyConst(Flattened(p), r) == p.early[r]
  {
    hide Concat;
    EarlyFits(Flattened(p), r);
    ConcatBlock(p.early, p.t, r);
  }

  lemma PartialBack<T>(p: P.Tables<T>, r: nat)
    requires p.Valid() && r < p.rp && Flattened(p).WellFormed()
    ensures PartialConst(Flattened(p), r) == p.ks[r]
  {
    hide Concat;
    PartialFits(Flattened(p), r);
    FlattenedWellFormed(p);
  }

  lemma LateBack<T>(p: P.Tables<T>, r: nat)
    requires p.Valid() && r < p.half - 1 && Flattened(p).WellFormed()
    ensures LateConst(Flattened(p), r) == p.late[r]
  {
    hide Concat;
    var c := Flattened(p);
    LateFits(c, r);
    FlattenedWellFormed(p);
    ConcatBlock(p.late, p.t, r);
    var front := Concat(p.early) + p.ks;
    assert LateAt(c, r) == |front| + p.t * r;
    assert c.rc[LateAt(c, r)..LateAt(c, r) + c.t] == Concat(p.late)[p.t * r..p.t * r + p.t];
  }

  lemma SparseBack<T>(p: P.Tables<T>, r: nat)
    requires p.Valid() && r < p.rp && Flattened(p).WellFormed()
    ensures Row(Flattened(p), r) == p.rows[r] && Col(Flattened(p), r) == p.cols[r]
  {
    hide Concat;
    var c := Flattened(p);
    RowFits(c, r);
    SparseBlocksUniform(p);
    hide SparseBlocks;
    ConcatBlock(SparseBlocks(p), 2 * p.t - 1, r);
    HalvesOf(c.sparse, RowAt(c, r), p.rows[r], p.cols[r]);
  }

  lemma HalvesOf<T>(s: seq<T>, i: nat, a: seq<T>, b: seq<T>)
    requires i + |a| + |b| <= |s| && s[i..i + |a| + |b|] == a + b
    ensures s[i..i + |a|] == a && s[i + |a|..i + |a| + |b|] == b
  {
    var block := s[i..i + |a| + |b|];
    assert block[..|a|] == a && block[|a|..] == b;
    assert s[i..i + |a|] == block[..|a|];
    assert s[i + |a|..i + |a| + |b|] == block[|a|..];
  }

  lemma ParsedFlattened<T>(p: P.Tables<T>)
    requires p.Valid()
    ensures Flattened(p).WellFormed() && Parsed(Flattened(p)) == p
  {
    hide Flattened, EarlyConst, PartialConst, LateConst, Row, Col;
    FlattenedWellFormed(p);
    var c := Flattened(p);
    var q := Parsed(c);
    assert c.t == p.t && c.half == p.half && c.rp == p.rp && c.mds == p.mds && c.presparse == p.presparse by {
      FlattenedSizes(p);
    }
    forall r | 0 <= r <= p.half ensures q.early[r] == p.early[r] { EarlyBack(p, r); }
    forall r | 0 <= r < p.rp ensures q.ks[r] == p.ks[r] { PartialBack(p, r); }
    forall r | 0 <= r < p.half - 1 ensures q.late[r] == p.late[r] { LateBack(p, r); }
    forall r | 0 <= r < p.rp ensures q.rows[r] == p.rows[r] && q.cols[r] == p.cols[r] { SparseBack(p, r); }
    assert q.early == p.early && q.ks == p.ks && q.late == p.late && q.rows == p.rows && q.cols == p.cols;
  }

  lemma FlattenedSizes<T>(p: P.Tables<T>)
    requires p.Valid()
    ensures var c := Flattened(p); c.t == p.t && c.half == p.half && c.rp == p.rp && c.mds == p.mds && c.presparse == p.presparse
  {
  }

  /**
   * For every textbook cipher with invertible matrices there is a flat configuration with
   * which the code's permutation is that cipher, on every state, and its hash is element 0 of
   * the encryption of zero followed by the inputs.
   */
  lemma CodeIsEncrypt<T(!new)>(R: Ring<T>, C: Textbook.Cipher<T>, Minv: seq<T>, Q: seq<T>) returns (c: Config<T>)
    requires IsRing(R) && Derivation.Inverses(R, C, Minv, Q)
    ensures c.WellFormed() && c.t == C.t && c.rf == 2 * C.half && c.rp == C.rp && c.mds == C.mds
    ensures forall x: Vec<T> {:trigger Textbook.Encrypt(R, C, x)} | |x| == C.t ::
              P.Permuted(R, Parsed(c), x) == Textbook.Encrypt(R, C, x)
    ensures forall inputs: seq<T>, s: seq<T> {:trigger P.Hash(R, Parsed(c), inputs), Textbook.Encrypt(R, C, s)} |
              |s| == |inputs| + 1 == C.t && s[0] == R.zero && (forall i | 0 <= i < |inputs| :: s[i + 1] == inputs[i]) ::
              P.Hash(R, Parsed(c), inputs) == Textbook.Encrypt(R, C, s)[0]
  {
    hide Concat, SparseBlocks, Textbook.Encrypt, P.Permuted, Parsed;
    Derivation.DerivedShapes(R, C, Minv, Q);
    var p := Derivation.Derived(R, C, Minv, Q);
    c := Flattened(p);
    ParsedFlattened(p);
    forall x: Vec<T> {:trigger Textbook.Encrypt(R, C, x)} | |x| == C.t
      ensures P.Permuted(R, Parsed(c), x) == Textbook.Encrypt(R, C, x)
    {
      Derivation.DerivedIsEncrypt(R, C, Minv, Q, x);
    }
    forall inputs: seq<T>, s: seq<T> |
      |s| == |inputs| + 1 == C.t && s[0] == R.zero && forall i | 0 <= i < |inputs| :: s[i + 1] == inputs[i]
      ensures P.Hash(R, Parsed(c), inputs) == Textbook.Encrypt(R, C, s)[0]
    {
      assert s == [R.zero] + inputs;
    }
  }
}
