/**
While the credit registry trusts only the verifier contract, and that is on the two registries,
records and retired tokens are in bijection.
 */
module RetirementBijection {
  import opened Options
  import opened PublicInputs
  import opened Host
  import opened RetirementVerifier
  import opened Ledgers
  import opened Runs
  import N = NullifierRegistry
  import C = CreditRegistry

  /** Every retired token carries the nullifier of a record. */
  ghost predicate TokensRecorded(l: Ledger) {
    forall id | id in l.credits.tokens && l.credits.tokens[id].isRetired ::
      l.credits.tokens[id].nullifier in l.verifications.records
  }

  /** No two retired tokens carry one nullifier. */
  ghost predicate TokensApart(l: Ledger) {
    forall i, j | i in l.credits.tokens && j in l.credits.tokens && l.credits.tokens[i].isRetired
                  && l.credits.tokens[j].isRetired && l.credits.tokens[i].nullifier == l.credits.tokens[j].nullifier ::
      i == j
  }

  ghost predicate Matched(l: Ledger) {
    TokensRecorded(l) && (OwnNullifiers(l.verifications) ==> TokensApart(l))
  }

  predicate TrustsOnlyVerifier(s: C.Credits) { s.verifier.None? || s.verifier == Some(SELF) }

  /** No call other than a successful verification retires a token while only the verifier is trusted. */
  lemma OthersRetireNothing(l: Ledger, env: Env, call: Call, id: nat)
    requires TrustsOnlyVerifier(l.credits)
    requires !call.Verify? || !AfterVerify(l, env, call.claim).Ok? || !AfterVerify(l, env, call.claim).value.1
    requires id in Step(l, env, call).0.credits.tokens && Step(l, env, call).0.credits.tokens[id].isRetired
    ensures id in l.credits.tokens && l.credits.tokens[id].isRetired
    ensures l.credits.tokens[id].nullifier == Step(l, env, call).0.credits.tokens[id].nullifier
  {
    hide ReadU32, Field;
  }

  lemma MatchedKept(l: Ledger, env: Env, call: Call)
    requires Sound(l) && Matched(l) && TrustsOnlyVerifier(l.credits)
    ensures Matched(Step(l, env, call).0)
  {
    hide AfterVerify, Attempt, Step, N.Counted, C.Numbered;
    var m := Step(l, env, call).0;
    StepGrows(l, env, call);
    if call.Verify? && AfterVerify(l, env, call.claim).Ok? && AfterVerify(l, env, call.claim).value.1 {
      VerifyEffect(l, env, call.claim);
      StepOfVerify(l, env, call.claim);
      forall n | n in l.verifications.records ensures OwnNullifiers(l.verifications) ==> n in l.nullifiers.used {
        assert BackedAt(l, n);
      }
    } else {
      OtherCallsRecordNothing(l, env, call);
      forall id | id in m.credits.tokens && m.credits.tokens[id].isRetired
        ensures id in l.credits.tokens && l.credits.tokens[id].isRetired
        ensures l.credits.tokens[id].nullifier == m.credits.tokens[id].nullifier
      {
        OthersRetireNothing(l, env, call, id);
      }
    }
  }

  /** The token that carries a record's nullifier. */
  ghost function TokenOf(l: Ledger, n: Bytes32): (id: nat)
    requires Backed(l) && OwnCredits(l.verifications) && n in l.verifications.records
    ensures RetiredBy(l.credits, id, n)
  {
    assert BackedAt(l, n);
    var id :| RetiredBy(l.credits, id, n);
    id
  }

  lemma {:induction false} RunMatched(entries: seq<Entry>)
    requires forall k {:trigger Run(GENESIS, entries[..k])} | 0 <= k < |entries| :: TrustsOnlyVerifier(Run(GENESIS, entries[..k]).credits)
    ensures Sound(Run(GENESIS, entries)) && Matched(Run(GENESIS, entries))
  {
    hide Step, Run, Sound;
    RunSound(entries);
    if entries == [] {
      RunNone(GENESIS);
    } else {
      var last := |entries| - 1;
      RunNext(GENESIS, entries, last);
      assert entries[..last + 1] == entries;
      RunSound(entries[..last]);
      forall k | 0 <= k < last ensures entries[..last][..k] == entries[..k] {
      }
      RunMatched(entries[..last]);
      MatchedKept(Run(GENESIS, entries[..last]), entries[last].env, entries[last].call);
    }
  }

  /**
  Over every run in which the credit registry never trusts another address: each retired token
  has a record; with the verifier on its own nullifier registry it is alone in that; with the
  verifier on its own credit registry each record has a retired token; so with both, records
  and retired tokens are in bijection.
   */
  lemma RecordsAreRetiredTokens(entries: seq<Entry>)
    requires forall k {:trigger Run(GENESIS, entries[..k])} | 0 <= k < |entries| :: TrustsOnlyVerifier(Run(GENESIS, entries[..k]).credits)
    ensures var l := Run(GENESIS, entries);
            && Sound(l) && TokensRecorded(l)
            && (OwnNullifiers(l.verifications) ==> TokensApart(l))
            && (OwnCredits(l.verifications) ==>
                  forall n | n in l.verifications.records :: RetiredBy(l.credits, TokenOf(l, n), n))
            && (OwnNullifiers(l.verifications) && OwnCredits(l.verifications) ==>
                  forall id | id in l.credits.tokens && l.credits.tokens[id].isRetired ::
                    TokenOf(l, l.credits.tokens[id].nullifier) == id)
  {
    hide Run;
    RunMatched(entries);
  }

  lemma RunNone(l: Ledger)
    ensures Run(l, []) == l
  {
  }
}
