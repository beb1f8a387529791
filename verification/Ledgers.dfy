/**
The three contracts as one ledger: every call, and the host that undoes a call that panics.
 */
module Ledgers {
  import opened PublicInputs
  import opened Host
  import opened RetirementVerifier
  import N = NullifierRegistry
  import C = CreditRegistry
  import V = RetirementVerifier

  datatype Call =
    | InitializeNullifiers(verifier: Address)
    | RecordNullifier(nullifier: Bytes32, caller: Address)
    | InitializeCredits(admin: Address)
    | Issue(owner: Address, terms: C.Terms)
    | Transfer(id: nat, from: Address, recipient: Address)
    | Burn(id: nat, owner: Address, nullifier: Bytes32)
    | SetVerifier(verifier: Address)
    | InitializeVerifier(vk: Bytes, nullifierRegistry: Address, creditRegistry: Address)
    | Verify(claim: Claim)
    | SetTestMode(enabled: bool)

  datatype Value = Unit | Truth(b: bool) | Id(id: nat)

  const GENESIS: Ledger := Ledger(N.NO_NULLIFIERS, C.NO_CREDITS, NO_VERIFICATIONS)

  function WithNullifiers(l: Ledger, after: Outcome<N.Nullifiers>): Outcome<(Ledger, Value)> {
    if after.Ok? then Ok((l.(nullifiers := after.value), Unit)) else Panic
  }

  function WithCredits(l: Ledger, after: Outcome<C.Credits>): Outcome<(Ledger, Value)> {
    if after.Ok? then Ok((l.(credits := after.value), Unit)) else Panic
  }

  function WithVerifications(l: Ledger, after: Outcome<Verifications>): Outcome<(Ledger, Value)> {
    if after.Ok? then Ok((l.(verifications := after.value), Unit)) else Panic
  }

  function Attempt(l: Ledger, env: Env, call: Call): Outcome<(Ledger, Value)> {
    match call
    case InitializeNullifiers(verifier) => WithNullifiers(l, N.AfterInitialize(l.nullifiers, verifier))
    case RecordNullifier(nullifier, caller) =>
      (match N.AfterRecord(l.nullifiers, nullifier, caller)
       case Panic => Panic
       case Ok((s, b)) => Ok((l.(nullifiers := s), Truth(b))))
    case InitializeCredits(admin) => WithCredits(l, C.AfterInitialize(l.credits, admin))
    case Issue(owner, terms) =>
      (match C.AfterIssue(l.credits, env.Signed(), env.now, owner, terms)
       case Panic => Panic
       case Ok((s, id)) => Ok((l.(credits := s), Id(id))))
    case Transfer(id, from, recipient) => WithCredits(l, C.AfterTransfer(l.credits, env.Signed(), id, from, recipient))
    case Burn(id, owner, nullifier) => WithCredits(l, C.AfterBurn(l.credits, env.Signed(), env.now, id, owner, nullifier))
    case SetVerifier(verifier) => WithCredits(l, C.AfterSetVerifier(l.credits, env.Signed(), verifier))
    case InitializeVerifier(vk, nullifierRegistry, creditRegistry) =>
      WithVerifications(l, V.AfterInitialize(l.verifications, vk, nullifierRegistry, creditRegistry))
    case Verify(claim) =>
      (match AfterVerify(l, env, claim)
       case Panic => Panic
       case Ok((next, b)) => Ok((next, Truth(b))))
    case SetTestMode(enabled) => Ok((l.(verifications := l.verifications.(testMode := enabled)), Unit))
  }

  /** A call that panics changes nothing. */
  function Step(l: Ledger, env: Env, call: Call): (Ledger, Outcome<Value>) {
    match Attempt(l, env, call)
    case Panic => (l, Panic)
    case Ok((next, value)) => (next, Ok(value))
  }

  /** The host: it restores the storage of all three contracts when a call panics. */
  class Chain {
    const nullifiers: N.NullifierRegistry
    const credits: C.CreditRegistry
    const verifier: RetirementVerifier

    constructor ()
      ensures State() == GENESIS
      ensures fresh(nullifiers) && fresh(credits) && fresh(verifier)
    {
      nullifiers := new N.NullifierRegistry();
      credits := new C.CreditRegistry();
      verifier := new RetirementVerifier();
    }

    function State(): Ledger
      reads nullifiers, credits, verifier
    {
      Ledger(nullifiers.State(), credits.State(), verifier.State())
    }

    method Restore(l: Ledger)
      modifies nullifiers, credits, verifier
      ensures State() == l
    {
      nullifiers.verifier, nullifiers.used, nullifiers.count := l.nullifiers.verifier, l.nullifiers.used, l.nullifiers.count;
      credits.admin, credits.verifier, credits.cnt, credits.tokens :=
        l.credits.admin, l.credits.verifier, l.credits.cnt, l.credits.tokens;
      verifier.vk, verifier.nullifierRegistry, verifier.creditRegistry :=
        l.verifications.vk, l.verifications.nullifierRegistry, l.verifications.creditRegistry;
      verifier.testMode, verifier.records := l.verifications.testMode, l.verifications.records;
    }

    method OnNullifiers(env: Env, call: Call) returns (r: Outcome<Value>)
      requires call.InitializeNullifiers? || call.RecordNullifier?
      modifies nullifiers
      ensures r.Ok? == Attempt(old(State()), env, call).Ok?
      ensures r.Ok? ==> (State(), r.value) == Attempt(old(State()), env, call).value
    {
      match call
      case InitializeNullifiers(v) =>
        var done := nullifiers.Initialize(v);
        r := if done.Ok? then Ok(Unit) else Panic;
      case RecordNullifier(n, caller) =>
        var done := nullifiers.Record(n, caller);
        r := if done.Ok? then Ok(Truth(done.value)) else Panic;
    }

    method OnCredits(env: Env, call: Call) returns (r: Outcome<Value>)
      requires call.InitializeCredits? || call.Issue? || call.Transfer? || call.Burn? || call.SetVerifier?
      modifies credits
      ensures r.Ok? == Attempt(old(State()), env, call).Ok?
      ensures r.Ok? ==> (State(), r.value) == Attempt(old(State()), env, call).value
    {
      var done: Outcome<()>;
      match call {
        case InitializeCredits(admin) =>
          done := credits.Initialize(admin);
        case Issue(owner, terms) =>
          var issued := credits.IssueCredit(env.Signed(), env.now, owner, terms);
          return if issued.Ok? then Ok(Id(issued.value)) else Panic;
        case Transfer(id, from, recipient) =>
          done := credits.TransferCredit(env.Signed(), id, from, recipient);
        case Burn(id, owner, n) =>
          done := credits.BurnOnRetirement(env.Signed(), env.now, id, owner, n);
        case SetVerifier(v) =>
          done := credits.SetVerifier(env.Signed(), v);
      }
      r := if done.Ok? then Ok(Unit) else Panic;
    }

    method OnVerifier(env: Env, call: Call) returns (r: Outcome<Value>)
      requires call.InitializeVerifier? || call.Verify? || call.SetTestMode?
      modifies nullifiers, credits, verifier
      ensures r.Ok? == Attempt(old(State()), env, call).Ok?
      ensures r.Ok? ==> (State(), r.value) == Attempt(old(State()), env, call).value
    {
      match call
      case InitializeVerifier(vk, nr, cr) =>
        var done := verifier.Initialize(vk, nr, cr);
        r := if done.Ok? then Ok(Unit) else Panic;
      case Verify(claim) =>
        var done := verifier.VerifyRetirement(env, nullifiers, credits, claim);
        r := if done.Ok? then Ok(Truth(done.value)) else Panic;
      case SetTestMode(enabled) =>
        verifier.SetTestMode(enabled);
        r := Ok(Unit);
    }

    method Execute(env: Env, call: Call) returns (r: Outcome<Value>)
      modifies nullifiers, credits, verifier
      ensures (State(), r) == Step(old(State()), env, call)
    {
      var saved := State();
      if call.InitializeNullifiers? || call.RecordNullifier? {
        r := OnNullifiers(env, call);
      } else if call.InitializeVerifier? || call.Verify? || call.SetTestMode? {
        r := OnVerifier(env, call);
      } else {
        r := OnCredits(env, call);
      }
      if r.Panic? {
        Restore(saved);
      }
    }
  }
}
