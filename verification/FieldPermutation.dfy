/** The permutation over the BN254 scalar field is a bijection of its states. */
module FieldPermutation {
  import opened Rings
  import opened Matrices
  import opened Poseidon
  import opened Invertibility
  import opened Textbook
  import opened Derivation
  import opened Decipherment
  import opened PrimeField
  import Primes

  ghost function FieldKeys(Minv: seq<Fp>, Pinv: seq<Fp>, units: seq<Fp>): Keys<Fp> {
    Keys(a => FifthRoot(a), Minv, Pinv, units)
  }

  lemma FieldRoot(a: Fp)
    requires Primes.IsPrime(ORDER)
    ensures RootAt(Field(), a => FifthRoot(a), a)
  {
    hide Pow5, FifthRoot;
    SboxInverse(a);
  }

  lemma FieldUndoesSbox()
    requires Primes.IsPrime(ORDER)
    ensures UndoesSbox(Field(), a => FifthRoot(a))
  {
    hide Pow5;
    var root: Fp -> Fp := a => FifthRoot(a);
    forall a: Fp ensures RootAt(Field(), root, a) {
      FieldRoot(a);
    }
  }

  /** 5 is coprime to ORDER - 1, so over the field only the matrices need inverses. */
  lemma FieldPermutationBijective(P: Tables<Fp>, Minv: seq<Fp>, Pinv: seq<Fp>, units: seq<Fp>, x: Vec<Fp>)
    requires Primes.IsPrime(ORDER) && P.Valid() && |x| == P.t
    requires InverseMatrix(Field(), P.t, P.mds, Minv) && InverseMatrix(Field(), P.t, P.presparse, Pinv)
    requires SchurUnits(Field(), P.rows, P.cols, units)
    ensures Unpermuted(Field(), P, FieldKeys(Minv, Pinv, units), Permuted(Field(), P, x)) == x
    ensures Permuted(Field(), P, Unpermuted(Field(), P, FieldKeys(Minv, Pinv, units), x)) == x
  {
    hide Permuted, Unpermuted, Pow5, InverseMatrix, SchurUnits;
    var K := FieldKeys(Minv, Pinv, units);
    FieldIsRing();
    FieldUndoesSbox();
    UnpermutedPermuted(Field(), P, K, x);
    PermutedUnpermuted(Field(), P, K, x);
  }

  /** With tables derived from a cipher, only the cipher's dense matrix and its lower-right block do. */
  lemma FieldDerivedBijective(C: Cipher<Fp>, Minv: seq<Fp>, Q: seq<Fp>, x: Vec<Fp>)
    requires Primes.IsPrime(ORDER) && Inverses(Field(), C, Minv, Q) && |x| == C.t
    ensures Derived(Field(), C, Minv, Q).Valid() && Derived(Field(), C, Minv, Q).t == C.t
    ensures Decrypt(Field(), C, Minv, a => FifthRoot(a), Permuted(Field(), Derived(Field(), C, Minv, Q), x)) == x
    ensures Permuted(Field(), Derived(Field(), C, Minv, Q), Decrypt(Field(), C, Minv, a => FifthRoot(a), x)) == x
  {
    hide Permuted, Derived, Decrypt, Inverses, UndoesSbox;
    FieldIsRing();
    FieldUndoesSbox();
    SizesOfInverses(C, Minv, Q);
    DerivedBijective(Field(), C, Minv, Q, a => FifthRoot(a), x);
  }

  lemma SizesOfInverses(C: Cipher<Fp>, Minv: seq<Fp>, Q: seq<Fp>)
    requires Inverses(Field(), C, Minv, Q)
    ensures C.Valid() && |Minv| == C.t * C.t && |Q| == (C.t - 1) * (C.t - 1)
  {
  }
}
