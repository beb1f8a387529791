/**
When each call of the contracts succeeds, and what it then leaves behind, in terms of the state
and the signatures before it; who owns a token after a run; and which key proofs are checked with.
 */
module Outcomes {
  import opened Arithmetic
  import opened Options
  import opened PublicInputs
  import opened Host
  import opened RetirementVerifier
  import opened Ledgers
  import opened Runs
  import N = NullifierRegistry
  import C = CreditRegistry

  /** The call panics, and changes nothing. */
  predicate Panics(l: Ledger, env: Env, call: Call) { Step(l, env, call) == (l, Panic) }

  /** The call returns a value, and the credit registry is all it changes. */
  predicate Leaves(l: Ledger, env: Env, call: Call, credits: C.Credits, value: Value) {
    Step(l, env, call) == (l.(credits := credits), Ok(value))
  }

  /** An owner alone can transfer a live token, to anyone; nobody else has to sign. */
  lemma TransferExactly(l: Ledger, env: Env, id: nat, from: Address, recipient: Address)
    ensures var s := l.credits;
            if from in env.Signed() && id in s.tokens && s.tokens[id].owner == from && !s.tokens[id].isRetired then
              Leaves(l, env, Transfer(id, from, recipient), s.(tokens := s.tokens[id := s.tokens[id].(owner := recipient)]), Unit)
            else Panics(l, env, Transfer(id, from, recipient))
  {
  }

  /** The admin alone can issue, to anyone: a live token under the next id. */
  lemma IssueExactly(l: Ledger, env: Env, owner: Address, terms: C.Terms)
    ensures var s := l.credits;
            if s.admin.Some? && s.admin.value in env.Signed() && s.cnt + 1 < U64 then
              var token := C.Metadata(terms.creditHash, terms.registryId, terms.vintageYear, terms.methodologyCode,
                                      terms.permanenceRating, terms.tonneVolume, owner, false, env.now, 0, Zero32());
              Leaves(l, env, Issue(owner, terms), s.(cnt := s.cnt + 1, tokens := s.tokens[s.cnt + 1 := token]), Id(s.cnt + 1))
            else Panics(l, env, Issue(owner, terms))
  {
  }

  lemma SetVerifierExactly(l: Ledger, env: Env, verifier: Address)
    ensures var s := l.credits;
            if s.admin.Some? && s.admin.value in env.Signed() then
              Leaves(l, env, SetVerifier(verifier), s.(verifier := Some(verifier)), Unit)
            else Panics(l, env, SetVerifier(verifier))
  {
  }

  /** Whoever the registry trusts can retire a live token of the named owner, under any nullifier. */
  lemma BurnExactly(l: Ledger, env: Env, id: nat, owner: Address, nullifier: Bytes32)
    ensures var s := l.credits;
            if s.verifier.Some? && s.verifier.value in env.Signed()
               && id in s.tokens && !s.tokens[id].isRetired && s.tokens[id].owner == owner then
              Leaves(l, env, Burn(id, owner, nullifier),
                     s.(tokens := s.tokens[id := s.tokens[id].(isRetired := true, retiredAt := env.now, nullifier := nullifier)]), Unit)
            else Panics(l, env, Burn(id, owner, nullifier))
  {
  }

  /** A nullifier is marked for whoever names the registered verifier as caller; no signature is asked for. */
  lemma RecordExactly(l: Ledger, env: Env, nullifier: Bytes32, caller: Address)
    ensures var s := l.nullifiers;
            if s.verifier != Some(caller) then Panics(l, env, RecordNullifier(nullifier, caller))
            else if nullifier in s.used then Step(l, env, RecordNullifier(nullifier, caller)) == (l, Ok(Truth(false)))
            else if s.count + 1 < U64 then
              Step(l, env, RecordNullifier(nullifier, caller))
              == (l.(nullifiers := s.(used := s.used + {nullifier}, count := s.count + 1)), Ok(Truth(true)))
            else Panics(l, env, RecordNullifier(nullifier, caller))
  {
  }

  /** Each contract is initialised exactly once, by any caller. */
  lemma InitializeExactly(l: Ledger, env: Env, a: Address, vk: Bytes, b: Address)
    ensures if l.nullifiers.verifier.None? then
              Step(l, env, InitializeNullifiers(a)) == (l.(nullifiers := l.nullifiers.(verifier := Some(a), count := 0)), Ok(Unit))
            else Panics(l, env, InitializeNullifiers(a))
    ensures if l.credits.admin.None? then Leaves(l, env, InitializeCredits(a), l.credits.(admin := Some(a), cnt := 0), Unit)
            else Panics(l, env, InitializeCredits(a))
    ensures if l.verifications.vk.None? then
              Step(l, env, InitializeVerifier(vk, a, b))
              == (l.(verifications := l.verifications.(vk := Some(vk), nullifierRegistry := Some(a), creditRegistry := Some(b))), Ok(Unit))
            else Panics(l, env, InitializeVerifier(vk, a, b))
  {
  }

  /** Test mode is set by any caller, in any state. */
  lemma TestModeExactly(l: Ledger, env: Env, enabled: bool)
    ensures Step(l, env, SetTestMode(enabled)) == (l.(verifications := l.verifications.(testMode := enabled)), Ok(Unit))
  {
  }

  // ----- Who owns a token

  /** The owner a call gives a token: the recipient of a transfer, or whom it is issued to. */
  function GivenBy(l: Ledger, entry: Entry, id: nat): Option<Address> {
    var call, answer := entry.call, Step(l, entry.env, entry.call).1;
    if call.Transfer? && call.id == id && answer.Ok? then Some(call.recipient)
    else if call.Issue? && answer == Ok(Id(id)) then Some(call.owner)
    else None
  }

  /** The last owner that the calls of a run give a token. */
  function LastGiven(l: Ledger, entries: seq<Entry>, id: nat): Option<Address> {
    if entries == [] then None
    else
      var last := |entries| - 1;
      var given := GivenBy(Run(l, entries[..last]), entries[last], id);
      if given.Some? then given else LastGiven(l, entries[..last], id)
  }

  /** How one call moves a token. */
  lemma OwnerStep(l: Ledger, entry: Entry, id: nat)
    requires C.Numbered(l.credits)
    ensures var s, t, given := l.credits.tokens, Step(l, entry.env, entry.call).0.credits.tokens, GivenBy(l, entry, id);
            if given.Some? then id in t && t[id].owner == given.value
            else (id in t <==> id in s) && (id in s ==> t[id].owner == s[id].owner)
  {
    hide ReadU32, Field, N.AfterRecord, Claim.ToRecord;
  }

  /**
  Over every run a token exists exactly when some call gave it to someone, and its owner is the
  one it was last given to.
   */
  lemma {:induction false} OwnersTraced(entries: seq<Entry>, id: nat)
    ensures var tokens := Run(GENESIS, entries).credits.tokens;
            && (id in tokens <==> LastGiven(GENESIS, entries, id).Some?)
            && (id in tokens ==> Some(tokens[id].owner) == LastGiven(GENESIS, entries, id))
  {
    hide Step, Sound, GivenBy;
    if entries != [] {
      var last := |entries| - 1;
      OwnersTraced(entries[..last], id);
      RunSound(entries[..last]);
      SoundNumbered(Run(GENESIS, entries[..last]));
      OwnerStep(Run(GENESIS, entries[..last]), entries[last], id);
    }
  }

  lemma SoundNumbered(l: Ledger)
    requires Sound(l)
    ensures C.Numbered(l.credits)
  {
  }

  // ----- Which key proofs are checked with

  /** The verifier is set up with this key and these addresses. */
  predicate SetUp(s: Verifications, vk: Bytes, a: Address, b: Address) {
    s.vk == Some(vk) && s.nullifierRegistry == Some(a) && s.creditRegistry == Some(b)
  }

  lemma {:induction false} StaysSetUp(l: Ledger, entries: seq<Entry>, vk: Bytes, a: Address, b: Address)
    requires Sound(l) && SetUp(l.verifications, vk, a, b)
    ensures SetUp(Run(l, entries).verifications, vk, a, b)
  {
    hide Step, Sound;
    if entries != [] {
      var last := |entries| - 1;
      var k := Run(l, entries[..last]);
      StaysSetUp(l, entries[..last], vk, a, b);
      RunKeeps(l, entries[..last]);
      SoundParts(k);
      InitialisedOnce(k, entries[last].env, entries[last].call);
    }
  }

  /**
  The key and addresses given to the one initialisation that succeeds are those in every later
  state: outside test mode a call that verifies there has a proof the proof system accepts for
  that key and these inputs.
   */
  lemma KeyUsed(l: Ledger, first: Env, vk: Bytes, a: Address, b: Address, entries: seq<Entry>, env: Env, claim: Claim)
    requires Sound(l) && Step(l, first, InitializeVerifier(vk, a, b)).1.Ok?
    ensures var m := Run(Step(l, first, InitializeVerifier(vk, a, b)).0, entries);
            && SetUp(m.verifications, vk, a, b)
            && (!m.verifications.testMode && Step(m, env, Verify(claim)).1 == Ok(Truth(true)) ==>
                  env.proves(vk, claim.inputs, claim.proof))
  {
    hide Step, Sound, Run, Refused, RetiredLedger;
    InitializeExactly(l, first, a, vk, b);
    SoundKept(l, first, InitializeVerifier(vk, a, b));
    var next := Step(l, first, InitializeVerifier(vk, a, b)).0;
    StaysSetUp(next, entries, vk, a, b);
    VerifyAtomic(Run(next, entries), env, claim);
  }
}
