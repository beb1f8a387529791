/**
The BN254 scalar field, and the permutation's S-box over it.
 */
module PrimeField {
  import opened Rings
  import opened Arithmetic
  import opened Primes
  import Poseidon

  /** The field order the permutation works over. */
  const ORDER: nat := 21888242871839275222246405745257275088548364400416034343698204186575808495617

  /** The inverse of 5 modulo ORDER - 1, and the quotient of 5 times it. */
  const ROOT_EXPONENT: nat := 17510594297471420177797124596205820070838691520332827474958563349260646796493
  const ROOT_QUOTIENT: nat := 4

  type Fp = x: nat | x < ORDER

  function Add(a: Fp, b: Fp): Fp { (a + b) % ORDER }

  function Mul(a: Fp, b: Fp): Fp { (a * b) % ORDER }

  function Neg(a: Fp): Fp { if a == 0 then 0 else ORDER - a }

  function Field(): Ring<Fp> {
    Ring(0, 1, (a, b) => Add(a, b), (a, b) => Mul(a, b), a => Neg(a))
  }

  lemma FieldLaws(a: Fp, b: Fp, c: Fp)
    ensures LawsAt(Field(), a, b, c)
  {
    ModAddAssoc(a, b, c, ORDER);
    ModMulAssoc(a, b, c, ORDER);
    ModDistribute(a, b, c, ORDER);
    FieldUnits(a);
    assert a * b == b * a;
  }

  lemma FieldUnits(a: Fp)
    ensures Add(a, 0) == a && Mul(a, 1) == a && Add(a, Neg(a)) == 0
  {
    DivUnique(a, ORDER, 0, a);
    DivUnique(0, ORDER, 0, 0);
    DivUnique(ORDER, ORDER, 1, 0);
  }

  lemma FieldIsRing()
    ensures IsRing(Field())
  {
    forall a: Fp, b: Fp, c: Fp ensures LawsAt(Field(), a, b, c) {
      FieldLaws(a, b, c);
    }
  }

  // ----- The S-box is a bijection of the field

  lemma Pow5Is(a: Fp)
    ensures Poseidon.Pow5(Field(), a) == Pow(a, 5) % ORDER
  {
    hide Pow;
    FifthPowerMod(a, ORDER);
  }

  function FifthRoot(a: Fp): Fp { Pow(a, ROOT_EXPONENT) % ORDER }

  lemma SboxInverse(a: Fp)
    requires IsPrime(ORDER)
    ensures FifthRoot(Poseidon.Pow5(Field(), a)) == a
    ensures Poseidon.Pow5(Field(), FifthRoot(a)) == a
  {
    hide Pow;
    Pow5Is(a);
    Pow5Is(FifthRoot(a));
    PowersUndo(a, ORDER, 5, ROOT_EXPONENT, ROOT_QUOTIENT);
    PowersUndo(a, ORDER, ROOT_EXPONENT, 5, ROOT_QUOTIENT);
  }
}
