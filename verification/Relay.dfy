/** A retirement relayed from the backend to the contract: what is recorded is what was proved. */
module Relay {
  import opened Arithmetic
  import opened Hex
  import opened PublicInputs
  import opened Host
  import opened RetirementVerifier
  import opened Ledgers
  import opened Runs

  /** Inputs as the services write them: four numbers of at most 64 digits, and two minima. */
  function Written(numbers: seq<nat>, minVintageYear: nat, minPermanence: nat): (i: Inputs)
    requires |numbers| == 4
    ensures i.Valid()
  {
    Inputs([ToHex(numbers[0]), ToHex(numbers[1]), ToHex(numbers[2]), ToHex(numbers[3])], minVintageYear, minPermanence)
  }

  /**
  When a relayed retirement verifies, the record filed under its nullifier holds exactly the
  numbers that were encoded, and the burned token carries that nullifier.
   */
  lemma RelayedRecord(l: Ledger, env: Env, proof: Bytes, tokenId: nat, owner: Address,
                      numbers: seq<nat>, minVintageYear: nat, minPermanence: nat)
    requires |numbers| == 4 && (forall k | 0 <= k < 4 :: numbers[k] < Pow16(64)) && minVintageYear < U32 && minPermanence < U32
    requires var claim := Claim(proof, Encoded(Written(numbers, minVintageYear, minPermanence)), tokenId, owner);
             Step(l, env, Verify(claim)).1 == Ok(Truth(true))
    ensures var inputs := Encoded(Written(numbers, minVintageYear, minPermanence));
            var m := Step(l, env, Verify(Claim(proof, inputs, tokenId, owner))).0;
            var n := Field(inputs, 0);
            && BytesValue(n) == numbers[0]
            && (OwnNullifiers(l.verifications) ==> n in m.nullifiers.used && n !in l.nullifiers.used)
            && (OwnCredits(l.verifications) ==> RetiredBy(m.credits, tokenId, n))
            && n in m.verifications.records
            && var record := m.verifications.records[n];
               && record.nullifier == n
               && BytesValue(record.registryRoot) == numbers[1]
               && BytesValue(record.volumeCommitment) == numbers[2]
               && BytesValue(record.corridorId) == numbers[3]
               && record.minVintageYear == minVintageYear && record.minPermanence == minPermanence
               && record.timestamp == env.now
  {
    hide Step, Encoded, BytesValue, ReadU32, Field, ToHex, Retirable;
    var i := Written(numbers, minVintageYear, minPermanence);
    VerifyAtomic(l, env, Claim(proof, Encoded(i), tokenId, owner));
    RetirableParts(l, env, Claim(proof, Encoded(i), tokenId, owner));
    forall k: nat | k < 4 ensures BytesValue(Field(Encoded(i), k)) == numbers[k] {
      WrittenRoundTrip(i, k, numbers[k]);
    }
    NumbersRoundTrip(i);
  }

  lemma RetirableParts(l: Ledger, env: Env, claim: Claim)
    requires Retirable(l, env, claim)
    ensures OwnNullifiers(l.verifications) ==> claim.Nullifier() !in l.nullifiers.used
    ensures OwnCredits(l.verifications) ==> claim.tokenId in l.credits.tokens
  {
  }
}
