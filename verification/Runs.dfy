/**
What holds over every run of the three contracts, whoever calls them, in whatever order and
with whatever arguments.
 */
module Runs {
  import opened Arithmetic
  import opened Options
  import opened PublicInputs
  import opened Host
  import opened RetirementVerifier
  import opened Ledgers
  import N = NullifierRegistry
  import C = CreditRegistry

  datatype Entry = Entry(env: Env, call: Call)

  function Run(l: Ledger, entries: seq<Entry>): Ledger {
    if entries == [] then l
    else
      var last := entries[|entries| - 1];
      Step(Run(l, entries[..|entries| - 1]), last.env, last.call).0
  }

  /** What entry i of a run answered. */
  function Answer(l: Ledger, entries: seq<Entry>, i: nat): Outcome<Value>
    requires i < |entries|
  {
    Step(Run(l, entries[..i]), entries[i].env, entries[i].call).1
  }

  // ----- Invariants

  /** The verifier was given the nullifier registry's own address. */
  predicate OwnNullifiers(s: Verifications) { s.nullifierRegistry == Some(NULLIFIERS) }

  /** The verifier was given the credit registry's own address. */
  predicate OwnCredits(s: Verifications) { s.creditRegistry == Some(CREDITS) }

  predicate RetiredBy(s: C.Credits, id: nat, nullifier: Bytes32) {
    id in s.tokens && s.tokens[id].isRetired && s.tokens[id].nullifier == nullifier
  }

  /** A record is filed under its own nullifier, which is used and carried by a retired token. */
  ghost predicate BackedAt(l: Ledger, n: Bytes32)
    requires n in l.verifications.records
  {
    && l.verifications.records[n].nullifier == n
    && (OwnNullifiers(l.verifications) ==> n in l.nullifiers.used)
    && (OwnCredits(l.verifications) ==> exists id :: RetiredBy(l.credits, id, n))
  }

  ghost predicate Backed(l: Ledger) {
    forall n | n in l.verifications.records :: BackedAt(l, n)
  }

  /** All addresses are set together, and nothing is recorded before. */
  predicate Prepared(s: Verifications) {
    && (s.vk.None? <==> s.nullifierRegistry.None?)
    && (s.vk.None? <==> s.creditRegistry.None?)
    && (s.vk.None? ==> s.records == map[])
  }

  ghost predicate Sound(l: Ledger) {
    && N.Counted(l.nullifiers)
    && C.Numbered(l.credits)
    && Prepared(l.verifications)
    && Backed(l)
  }

  /** Whatever a call does to the nullifier registry is one of its own calls. */
  lemma NullifiersStep(l: Ledger, env: Env, call: Call)
    ensures var m := Step(l, env, call).0;
            m.nullifiers == l.nullifiers || N.Next(l.nullifiers, m.nullifiers)
  {
    hide BurnCall, Valid, ReadU32, Field;
  }

  lemma CreditsStep(l: Ledger, env: Env, call: Call)
    ensures var m := Step(l, env, call).0;
            m.credits == l.credits || C.Next(l.credits, m.credits)
  {
    hide RecordCall, Valid, ReadU32, Field, C.AfterIssue, C.AfterTransfer, C.AfterBurn, C.AfterSetVerifier, C.AfterInitialize;
  }

  predicate SameAddresses(s: Verifications, t: Verifications) {
    s.nullifierRegistry == t.nullifierRegistry && s.creditRegistry == t.creditRegistry
  }

  /** The verifier's addresses never change once set. */
  lemma AddressesKept(l: Ledger, env: Env, call: Call)
    requires Prepared(l.verifications)
    ensures var m := Step(l, env, call).0;
            && Prepared(m.verifications)
            && (l.verifications.vk.Some? ==> m.verifications.vk.Some? && SameAddresses(l.verifications, m.verifications))
  {
    hide BurnCall, ReadU32, Field, Valid, N.AfterRecord, N.AfterInitialize;
    hide C.AfterIssue, C.AfterTransfer, C.AfterBurn, C.AfterSetVerifier, C.AfterInitialize;
  }

  /** What one call can do to the used nullifiers and the tokens, in either outcome. */
  lemma StepGrows(l: Ledger, env: Env, call: Call)
    requires Sound(l)
    ensures var m := Step(l, env, call).0;
            && l.nullifiers.used <= m.nullifiers.used
            && l.nullifiers.count <= m.nullifiers.count
            && N.Counted(m.nullifiers) && C.Numbered(m.credits) && Prepared(m.verifications)
            && (l.verifications.vk.Some? ==> m.verifications.vk.Some? && SameAddresses(l.verifications, m.verifications))
            && forall id | id in l.credits.tokens && l.credits.tokens[id].isRetired ::
                 id in m.credits.tokens && m.credits.tokens[id] == l.credits.tokens[id]
  {
    hide Step, N.Next, C.Next, N.Counted, C.Numbered, Backed;
    var m := Step(l, env, call).0;
    NullifiersStep(l, env, call);
    CreditsStep(l, env, call);
    AddressesKept(l, env, call);
    if m.nullifiers != l.nullifiers {
      N.CountedKept(l.nullifiers, m.nullifiers);
    }
    if m.credits != l.credits {
      C.NumberedKept(l.credits, m.credits);
      forall id | id in l.credits.tokens && l.credits.tokens[id].isRetired
        ensures id in m.credits.tokens && m.credits.tokens[id] == l.credits.tokens[id]
      {
        C.TokensKept(l.credits, m.credits, id);
      }
    }
  }

  /** Only a verification that succeeds adds a record. */
  lemma OtherCallsRecordNothing(l: Ledger, env: Env, call: Call)
    requires !call.Verify? || !AfterVerify(l, env, call.claim).Ok? || !AfterVerify(l, env, call.claim).value.1
    ensures Step(l, env, call).0.verifications.records == l.verifications.records
  {
    hide ReadU32;
  }

  /** A successful verification, in full; a registry at another address is not ours to change. */
  lemma VerifyEffect(l: Ledger, env: Env, claim: Claim)
    requires Prepared(l.verifications) && AfterVerify(l, env, claim).Ok? && AfterVerify(l, env, claim).value.1
    ensures claim.Readable() && l.verifications.vk.Some?
    ensures var n := claim.Nullifier();
            var m := AfterVerify(l, env, claim).value.0;
            && m.verifications == l.verifications.(records := l.verifications.records[n := claim.ToRecord(env.now)])
            && (if OwnNullifiers(l.verifications) then
                  && n !in l.nullifiers.used
                  && m.nullifiers == l.nullifiers.(used := l.nullifiers.used + {n}, count := l.nullifiers.count + 1)
                else m.nullifiers == l.nullifiers)
            && (if OwnCredits(l.verifications) then
                  && claim.tokenId in l.credits.tokens && !l.credits.tokens[claim.tokenId].isRetired
                  && RetiredBy(m.credits, claim.tokenId, n)
                  && m.credits == l.credits.(tokens := l.credits.tokens[claim.tokenId := m.credits.tokens[claim.tokenId]])
                else m.credits == l.credits)
  {
    hide ReadU32, Field;
  }

  lemma SoundKept(l: Ledger, env: Env, call: Call)
    requires Sound(l)
    ensures Sound(Step(l, env, call).0)
  {
    hide N.Counted, C.Numbered, AfterVerify, Attempt;
    var m := Step(l, env, call).0;
    StepGrows(l, env, call);
    if call.Verify? && AfterVerify(l, env, call.claim).Ok? && AfterVerify(l, env, call.claim).value.1 {
      VerifyEffect(l, env, call.claim);
      assert m == AfterVerify(l, env, call.claim).value.0 by { StepOfVerify(l, env, call.claim); }
    } else {
      OtherCallsRecordNothing(l, env, call);
    }
    forall n | n in m.verifications.records ensures BackedAt(m, n) {
      if n in l.verifications.records {
        assert BackedAt(l, n);
        if OwnCredits(m.verifications) {
          var id :| RetiredBy(l.credits, id, n);
          assert RetiredBy(m.credits, id, n);
        }
      }
    }
  }

  lemma StepOfVerify(l: Ledger, env: Env, claim: Claim)
    ensures var after := AfterVerify(l, env, claim);
            Step(l, env, Verify(claim)) == if after.Ok? then (after.value.0, Ok(Truth(after.value.1))) else (l, Panic)
  {
    hide AfterVerify;
  }

  /** The invariants hold in every reachable state. */
  lemma {:induction false} RunSound(entries: seq<Entry>)
    ensures Sound(Run(GENESIS, entries))
  {
    if entries != [] {
      var last := entries[|entries| - 1];
      RunSound(entries[..|entries| - 1]);
      SoundKept(Run(GENESIS, entries[..|entries| - 1]), last.env, last.call);
    }
  }

  // ----- Records are kept

  lemma StepKeepsRecords(l: Ledger, env: Env, call: Call, n: Bytes32)
    requires Sound(l) && n in l.verifications.records
    ensures var m := Step(l, env, call).0;
            && n in m.verifications.records
            && (OwnNullifiers(l.verifications) ==> m.verifications.records[n] == l.verifications.records[n])
  {
    hide AfterVerify, Attempt, N.Counted, C.Numbered, Step;
    assert BackedAt(l, n);
    if call.Verify? && AfterVerify(l, env, call.claim).Ok? && AfterVerify(l, env, call.claim).value.1 {
      VerifyEffect(l, env, call.claim);
      StepOfVerify(l, env, call.claim);
    } else {
      OtherCallsRecordNothing(l, env, call);
    }
  }

  lemma RunSplits(l: Ledger, entries: seq<Entry>, i: nat)
    requires i <= |entries|
    ensures Run(l, entries) == Run(Run(l, entries[..i]), entries[i..])
  {
    hide Step;
    if i < |entries| {
      var last := |entries| - 1;
      RunSplits(l, entries[..last], i);
      assert entries[..last][..i] == entries[..i] && entries[..last][i..] == entries[i..][..last - i];
    } else {
      assert entries[..i] == entries && entries[i..] == [];
    }
  }

  /** What no call undoes: used nullifiers, retired tokens, records, and the verifier's addresses. */
  ghost predicate Keeps(l: Ledger, m: Ledger) {
    && l.nullifiers.used <= m.nullifiers.used
    && (forall id | id in l.credits.tokens && l.credits.tokens[id].isRetired ::
          id in m.credits.tokens && m.credits.tokens[id] == l.credits.tokens[id])
    && (forall n | n in l.verifications.records :: n in m.verifications.records)
    && (OwnNullifiers(l.verifications) ==>
          forall n | n in l.verifications.records :: m.verifications.records[n] == l.verifications.records[n])
    && (l.verifications.vk.Some? ==> m.verifications.vk.Some? && SameAddresses(l.verifications, m.verifications))
  }

  lemma StepKeeps(l: Ledger, env: Env, call: Call)
    requires Sound(l)
    ensures Sound(Step(l, env, call).0) && Keeps(l, Step(l, env, call).0)
  {
    hide Step, Sound;
    SoundKept(l, env, call);
    StepGrows(l, env, call);
    forall n | n in l.verifications.records
      ensures n in Step(l, env, call).0.verifications.records
      ensures OwnNullifiers(l.verifications) ==> Step(l, env, call).0.verifications.records[n] == l.verifications.records[n]
    {
      StepKeepsRecords(l, env, call, n);
    }
  }

  lemma KeepsOnwards(l: Ledger, k: Ledger, m: Ledger)
    requires Prepared(l.verifications) && Keeps(l, k) && Keeps(k, m)
    ensures Keeps(l, m)
  {
  }

  /**
  Whatever happened before, what follows never removes a used nullifier or a record, never
  changes a retired token, and, with the verifier on its own nullifier registry, never
  overwrites a record.
   */
  lemma {:induction false} RunKeeps(l: Ledger, entries: seq<Entry>)
    requires Sound(l)
    ensures Sound(Run(l, entries)) && Keeps(l, Run(l, entries))
  {
    hide Step, Sound, Keeps;
    if entries == [] {
      KeepsItself(l);
    } else {
      var last := entries[|entries| - 1];
      var k := Run(l, entries[..|entries| - 1]);
      RunKeeps(l, entries[..|entries| - 1]);
      StepKeeps(k, last.env, last.call);
      SoundParts(l);
      KeepsOnwards(l, k, Run(l, entries));
    }
  }

  lemma KeepsItself(l: Ledger)
    ensures Keeps(l, l)
  {
  }

  // ----- Verification is atomic

  /** Whether the proof of a claim is accepted; without a key, outside test mode, there is no answer. */
  function ProofAnswer(s: Verifications, env: Env, claim: Claim): Option<bool> {
    if s.testMode then Some(claim.proof != [])
    else if s.vk.Some? then Some(env.proves(s.vk.value, claim.inputs, claim.proof))
    else None
  }

  /** When a call answers false: for a proof that is not accepted, or a nullifier its registry refuses. */
  predicate Refused(l: Ledger, env: Env, claim: Claim) {
    && claim.Readable()
    && (|| ProofAnswer(l.verifications, env, claim) == Some(false)
        || (&& ProofAnswer(l.verifications, env, claim) == Some(true)
            && if OwnNullifiers(l.verifications) then l.nullifiers.verifier == Some(SELF) && claim.Nullifier() in l.nullifiers.used
               else l.verifications.nullifierRegistry.Some? && env.foreignRecord == Ok(false)))
  }

  /** When a call verifies, in terms of the state before it and of the answers of other contracts. */
  predicate Retirable(l: Ledger, env: Env, claim: Claim) {
    && claim.Readable()
    && ProofAnswer(l.verifications, env, claim) == Some(true)
    && l.verifications.nullifierRegistry.Some? && l.verifications.creditRegistry.Some?
    && (if OwnNullifiers(l.verifications) then
          l.nullifiers.verifier == Some(SELF) && claim.Nullifier() !in l.nullifiers.used && l.nullifiers.count + 1 < U64
        else env.foreignRecord == Ok(true))
    && (if OwnCredits(l.verifications) then
          && l.credits.verifier.Some? && l.credits.verifier.value in env.Signed() + {SELF}
          && claim.tokenId in l.credits.tokens
          && !l.credits.tokens[claim.tokenId].isRetired && l.credits.tokens[claim.tokenId].owner == claim.owner
        else env.foreignBurn.Ok?)
  }

  /** The one atomic step of a retirement, on those of the registries that are the verifier's own. */
  function RetiredLedger(l: Ledger, env: Env, claim: Claim): Ledger
    requires claim.Readable() && (OwnCredits(l.verifications) ==> claim.tokenId in l.credits.tokens)
  {
    var n, id := claim.Nullifier(), claim.tokenId;
    Ledger(
      if OwnNullifiers(l.verifications)
      then l.nullifiers.(used := l.nullifiers.used + {n}, count := l.nullifiers.count + 1)
      else l.nullifiers,
      if OwnCredits(l.verifications)
      then l.credits.(tokens := l.credits.tokens[id := l.credits.tokens[id].(isRetired := true, retiredAt := env.now, nullifier := n)])
      else l.credits,
      l.verifications.(records := l.verifications.records[n := claim.ToRecord(env.now)]))
  }

  /**
  A verification either marks the nullifier, bumps the count, burns the token and writes the
  record together, exactly when the guard holds, or changes nothing: then it answers false
  exactly for a proof that is not accepted and for a nullifier refused, and panics otherwise.
   */
  lemma VerifyAtomic(l: Ledger, env: Env, claim: Claim)
    ensures var (m, r) := Step(l, env, Verify(claim));
            if Retirable(l, env, claim) then m == RetiredLedger(l, env, claim) && r == Ok(Truth(true))
            else m == l && r == if Refused(l, env, claim) then Ok(Truth(false)) else Panic
  {
    hide ReadU32, Field;
  }

  /**
  The proof is tied to no token: on the verifier's own credit registry, a claim that verifies
  verifies as well with any other live token and its owner, whoever signs.
   */
  lemma TokenFree(l: Ledger, env: Env, claim: Claim, id: nat)
    requires Retirable(l, env, claim) && OwnCredits(l.verifications)
    requires id in l.credits.tokens && !l.credits.tokens[id].isRetired
    ensures var other := claim.(tokenId := id, owner := l.credits.tokens[id].owner);
            && Retirable(l, env, other)
            && Step(l, env, Verify(other)) == (RetiredLedger(l, env, other), Ok(Truth(true)))
            && RetiredLedger(l, env, other).credits.tokens[id].isRetired
  {
    hide ReadU32, Field, Step;
    var other := claim.(tokenId := id, owner := l.credits.tokens[id].owner);
    VerifyAtomic(l, env, other);
  }

  // ----- Who can change what

  /**
  A token changes only by a transfer its owner signed, or by retirement through whoever the
  registry trusts; tokens appear only by an issue the admin signed.
   */
  lemma TokensAuthorised(l: Ledger, env: Env, call: Call, id: nat)
    requires C.Numbered(l.credits)
    ensures var s, t := l.credits, Step(l, env, call).0.credits;
            && (id in s.tokens ==>
                  && id in t.tokens
                  && (|| t.tokens[id] == s.tokens[id]
                      || (&& call.Transfer? && call.id == id && call.from == s.tokens[id].owner && call.from in env.Signed()
                          && !s.tokens[id].isRetired && t.tokens[id] == s.tokens[id].(owner := call.recipient))
                      || (&& call.Burn? && call.id == id && s.verifier.Some? && s.verifier.value in env.Signed()
                          && !s.tokens[id].isRetired && call.owner == s.tokens[id].owner && t.tokens[id].isRetired)
                      || (&& call.Verify? && call.claim.tokenId == id && Step(l, env, call).1 == Ok(Truth(true))
                          && s.verifier.Some? && s.verifier.value in env.Signed() + {SELF}
                          && !s.tokens[id].isRetired && call.claim.owner == s.tokens[id].owner && t.tokens[id].isRetired)))
            && (id !in s.tokens && id in t.tokens ==>
                  call.Issue? && id == s.cnt + 1 && s.admin.Some? && s.admin.value in env.Signed())
  {
    hide ReadU32, Field, N.AfterRecord;
  }

  /** Initialisation happens once, and the trusted verifier changes only with the admin's signature. */
  lemma InitialisedOnce(l: Ledger, env: Env, call: Call)
    requires Prepared(l.verifications)
    ensures var m := Step(l, env, call).0;
            && (l.nullifiers.verifier.Some? ==> m.nullifiers.verifier == l.nullifiers.verifier)
            && (l.credits.admin.Some? ==> m.credits.admin == l.credits.admin)
            && (l.verifications.vk.Some? ==>
                  && m.verifications.vk == l.verifications.vk
                  && m.verifications.nullifierRegistry == l.verifications.nullifierRegistry
                  && m.verifications.creditRegistry == l.verifications.creditRegistry)
            && (m.credits.verifier != l.credits.verifier ==> l.credits.admin.Some? && l.credits.admin.value in env.Signed())
  {
    hide ReadU32, Field;
  }

  // ----- No credit and no nullifier is retired twice

  predicate Succeeds(l: Ledger, entries: seq<Entry>, i: nat)
    requires i < |entries|
  {
    entries[i].call.Verify? && Answer(l, entries, i) == Ok(Truth(true))
  }

  lemma SuccessGuard(l: Ledger, entries: seq<Entry>, i: nat)
    requires i < |entries| && Succeeds(l, entries, i)
    ensures var k := Run(l, entries[..i]);
            && Retirable(k, entries[i].env, entries[i].call.claim)
            && Run(l, entries[..i + 1]) == RetiredLedger(k, entries[i].env, entries[i].call.claim)
  {
    hide Run, Step, Retirable, AfterVerify, RetiredLedger;
    VerifyAtomic(Run(l, entries[..i]), entries[i].env, entries[i].call.claim);
    RunNext(l, entries, i);
  }

  /**
  Two successful verifications of one run are of different nullifiers if the verifier is on
  its own nullifier registry, and of different tokens if it is on its own credit registry.
   */
  lemma NoDoubleRetirement(entries: seq<Entry>, i: nat, j: nat)
    requires i < j < |entries| && Succeeds(GENESIS, entries, i) && Succeeds(GENESIS, entries, j)
    ensures entries[i].call.claim.Readable() && entries[j].call.claim.Readable()
    ensures var s := Run(GENESIS, entries[..j]).verifications;
            && (OwnNullifiers(s) ==> entries[i].call.claim.Nullifier() != entries[j].call.claim.Nullifier())
            && (OwnCredits(s) ==> entries[i].call.claim.tokenId != entries[j].call.claim.tokenId)
  {
    hide Step, Sound, Field, AfterVerify, Run, Answer, ReadU32;
    var before, after, later := Run(GENESIS, entries[..i]), Run(GENESIS, entries[..i + 1]), Run(GENESIS, entries[..j]);
    RunSound(entries[..i + 1]);
    SoundParts(after);
    RunSplits(GENESIS, entries[..j], i + 1);
    RunKeeps(after, entries[..j][i + 1..]);
    assert entries[..j][..i + 1] == entries[..i + 1];
    SuccessGuard(GENESIS, entries, i);
    SuccessGuard(GENESIS, entries, j);
  }

  /** Two successes in a row from a state, given the guard of each. */
  lemma TwiceFrom(entries: seq<Entry>, i: nat)
    requires i + 1 < |entries| && entries[i].call.Verify? && entries[i + 1].call.Verify?
    requires Retirable(Run(GENESIS, entries[..i]), entries[i].env, entries[i].call.claim)
    requires Retirable(RetiredLedger(Run(GENESIS, entries[..i]), entries[i].env, entries[i].call.claim),
                       entries[i + 1].env, entries[i + 1].call.claim)
    ensures Succeeds(GENESIS, entries, i) && Succeeds(GENESIS, entries, i + 1)
  {
    hide Run, Step, Retirable, RetiredLedger;
    RunNext(GENESIS, entries, i);
    VerifyAtomic(Run(GENESIS, entries[..i]), entries[i].env, entries[i].call.claim);
    VerifyAtomic(Run(GENESIS, entries[..i + 1]), entries[i + 1].env, entries[i + 1].call.claim);
  }

  function Calls(env: Env, calls: seq<Call>): (entries: seq<Entry>)
    ensures |entries| == |calls|
  {
    seq(|calls|, i requires 0 <= i < |calls| => Entry(env, calls[i]))
  }

  lemma CallsNext(env: Env, calls: seq<Call>, i: nat)
    requires i < |calls|
    ensures Run(GENESIS, Calls(env, calls)[..i + 1]) == Step(Run(GENESIS, Calls(env, calls)[..i]), env, calls[i]).0
  {
    RunNext(GENESIS, Calls(env, calls), i);
  }

  /**
  With a nullifier registry at another address that always agrees, one nullifier is retired
  twice, with two tokens of our credit registry.
   */
  lemma ForeignNullifiersRepeat(vk: Bytes, a: Address, admin: Address, terms: C.Terms, env: Env, claim: Claim)
    requires a != NULLIFIERS && env.foreignRecord == Ok(true) && admin in env.Signed()
    requires claim.Readable() && claim.proof != []
    ensures var calls := [InitializeCredits(admin), SetVerifier(SELF), Issue(admin, terms), Issue(admin, terms),
                          InitializeVerifier(vk, a, CREDITS), SetTestMode(true),
                          Verify(claim.(tokenId := 1, owner := admin)), Verify(claim.(tokenId := 2, owner := admin))];
            && OwnCredits(Run(GENESIS, Calls(env, calls)[..6]).verifications)
            && Succeeds(GENESIS, Calls(env, calls), 6) && Succeeds(GENESIS, Calls(env, calls), 7)
  {
    hide ReadU32, Field, AfterVerify, Run, Calls, Claim.ToRecord, C.Issued;
    var calls := [InitializeCredits(admin), SetVerifier(SELF), Issue(admin, terms), Issue(admin, terms),
                  InitializeVerifier(vk, a, CREDITS), SetTestMode(true),
                  Verify(claim.(tokenId := 1, owner := admin)), Verify(claim.(tokenId := 2, owner := admin))];
    CallsAt(env, calls);
    ReadyAfterSix(vk, a, admin, terms, env, calls);
    TwiceFrom(Calls(env, calls), 6);
  }

  /** Two live tokens of one owner, our credit registry trusting the verifier, and test mode. */
  lemma ReadyAfterSix(vk: Bytes, a: Address, admin: Address, terms: C.Terms, env: Env, calls: seq<Call>)
    requires admin in env.Signed() && |calls| >= 6
    requires calls[..6] == [InitializeCredits(admin), SetVerifier(SELF), Issue(admin, terms), Issue(admin, terms),
                            InitializeVerifier(vk, a, CREDITS), SetTestMode(true)]
    ensures var l := Run(GENESIS, Calls(env, calls)[..6]);
            && l.verifications.testMode
            && l.verifications.nullifierRegistry == Some(a) && l.verifications.creditRegistry == Some(CREDITS)
            && l.credits.verifier == Some(SELF)
            && (forall id | 1 <= id <= 2 ::
                  id in l.credits.tokens && !l.credits.tokens[id].isRetired && l.credits.tokens[id].owner == admin)
  {
    hide Run, Calls;
    CallsStart(env, calls);
    assert forall i | 0 <= i < 6 :: calls[i] == calls[..6][i];
    CallsNext(env, calls, 0);
    CallsNext(env, calls, 1);
    CallsNext(env, calls, 2);
    CallsNext(env, calls, 3);
    CallsNext(env, calls, 4);
    CallsNext(env, calls, 5);
  }

  /**
  With a credit registry at another address that always agrees, one token is retired twice,
  under two nullifiers of our nullifier registry.
   */
  lemma ForeignCreditsRepeat(vk: Bytes, b: Address, env: Env, first: Claim, second: Claim)
    requires b != CREDITS && env.foreignBurn == Ok(())
    requires first.Readable() && second.Readable() && first.proof != [] && second.proof != []
    requires first.tokenId == second.tokenId && first.Nullifier() != second.Nullifier()
    ensures var calls := [InitializeNullifiers(SELF), InitializeVerifier(vk, NULLIFIERS, b), SetTestMode(true),
                          Verify(first), Verify(second)];
            && OwnNullifiers(Run(GENESIS, Calls(env, calls)[..3]).verifications)
            && Succeeds(GENESIS, Calls(env, calls), 3) && Succeeds(GENESIS, Calls(env, calls), 4)
  {
    hide ReadU32, Field, AfterVerify, Run, Calls, Claim.ToRecord;
    var calls := [InitializeNullifiers(SELF), InitializeVerifier(vk, NULLIFIERS, b), SetTestMode(true), Verify(first), Verify(second)];
    CallsStart(env, calls);
    CallsNext(env, calls, 0);
    CallsNext(env, calls, 1);
    CallsNext(env, calls, 2);
    CallsAt(env, calls);
    TwiceFrom(Calls(env, calls), 3);
  }

  lemma CallsStart(env: Env, calls: seq<Call>)
    ensures Run(GENESIS, Calls(env, calls)[..0]) == GENESIS
  {
  }

  lemma CallsAt(env: Env, calls: seq<Call>)
    ensures forall i | 0 <= i < |calls| :: Calls(env, calls)[i] == Entry(env, calls[i])
  {
  }

  lemma SoundParts(l: Ledger)
    requires Sound(l)
    ensures Prepared(l.verifications)
  {
  }

  lemma RunNext(l: Ledger, entries: seq<Entry>, i: nat)
    requires i < |entries|
    ensures Run(l, entries[..i + 1]) == Step(Run(l, entries[..i]), entries[i].env, entries[i].call).0
  {
    assert entries[..i + 1][..i] == entries[..i];
  }
}
