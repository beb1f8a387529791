/**
The retirement verifier contract: it checks a proof, records the nullifier and burns the
token in the two other contracts, and keeps the record.
 */
module RetirementVerifier {
  import opened Options
  import opened PublicInputs
  import opened Host
  import N = NullifierRegistry
  import C = CreditRegistry

  /** Addresses of the deployed contracts. */
  const NULLIFIERS: Address := Contract(0)
  const CREDITS: Address := Contract(1)
  const SELF: Address := Contract(2)

  datatype Record = Record(
    nullifier: Bytes32, registryRoot: Bytes32, volumeCommitment: Bytes32, corridorId: Bytes32,
    minVintageYear: nat, minPermanence: nat, timestamp: nat)

  datatype Verifications = Verifications(
    vk: Option<Bytes>, nullifierRegistry: Option<Address>, creditRegistry: Option<Address>, testMode: bool,
    records: map<Bytes32, Record>)

  const NO_VERIFICATIONS: Verifications := Verifications(None, None, None, false, map[])

  /** The storage of the three contracts. */
  datatype Ledger = Ledger(nullifiers: N.Nullifiers, credits: C.Credits, verifications: Verifications)

  /**
  The context of a call: who signed, the time, the proof system (verification key, public
  inputs, proof), and what contracts other than these three answer.
   */
  datatype Env = Env(
    signers: set<Address>, now: nat, proves: (Bytes, Bytes, Bytes) -> bool,
    foreignRecord: Outcome<bool>, foreignBurn: Outcome<()>)
  {
    /** Contracts do not sign; the verifier itself authorises the calls it makes. */
    function Signed(): set<Address> { signers - {NULLIFIERS, CREDITS, SELF} }
  }

  datatype Claim = Claim(proof: Bytes, inputs: Bytes, tokenId: nat, owner: Address)
  {
    /** Inputs too short to slice the fields from are an error. */
    predicate Readable() { |inputs| >= 128 }

    function Nullifier(): Bytes32
      requires Readable()
    {
      Field(inputs, 0)
    }

    function ToRecord(now: nat): Record
      requires Readable()
    {
      Record(Field(inputs, 0), Field(inputs, 1), Field(inputs, 2), Field(inputs, 3),
             ReadU32(inputs, 128), ReadU32(inputs, 132), now)
    }
  }

  function AfterInitialize(s: Verifications, vk: Bytes, nullifierRegistry: Address, creditRegistry: Address): Outcome<Verifications> {
    if s.vk.Some? then Panic
    else Ok(s.(vk := Some(vk), nullifierRegistry := Some(nullifierRegistry), creditRegistry := Some(creditRegistry)))
  }

  /** Whether a proof is accepted; without a key, outside test mode, this is an error. */
  function Valid(s: Verifications, env: Env, claim: Claim): Outcome<bool> {
    if s.testMode then Ok(claim.proof != [])
    else match s.vk
      case None => Panic
      case Some(vk) => Ok(env.proves(vk, claim.inputs, claim.proof))
  }

  /** The nullifier registry's answer to the verifier. */
  function RecordCall(l: Ledger, env: Env, nullifier: Bytes32): Outcome<(N.Nullifiers, bool)> {
    match l.verifications.nullifierRegistry
    case None => Panic
    case Some(address) =>
      if address == NULLIFIERS then N.AfterRecord(l.nullifiers, nullifier, SELF)
      else if env.foreignRecord.Ok? then Ok((l.nullifiers, env.foreignRecord.value))
      else Panic
  }

  /** The credit registry's answer to the verifier. */
  function BurnCall(l: Ledger, env: Env, claim: Claim): Outcome<C.Credits>
    requires claim.Readable()
  {
    match l.verifications.creditRegistry
    case None => Panic
    case Some(address) =>
      if address == CREDITS then
        C.AfterBurn(l.credits, env.Signed() + {SELF}, env.now, claim.tokenId, claim.owner, claim.Nullifier())
      else if env.foreignBurn.Ok? then Ok(l.credits)
      else Panic
  }

  function AfterVerify(l: Ledger, env: Env, claim: Claim): Outcome<(Ledger, bool)> {
    if !claim.Readable() || Valid(l.verifications, env, claim).Panic? then Panic
    else if !Valid(l.verifications, env, claim).value then Ok((l, false))
    else match RecordCall(l, env, claim.Nullifier())
      case Panic => Panic
      case Ok((nullifiers, false)) => Ok((l.(nullifiers := nullifiers), false))
      case Ok((nullifiers, true)) =>
        match BurnCall(l, env, claim)
        case Panic => Panic
        case Ok(credits) =>
          var records := l.verifications.records[claim.Nullifier() := claim.ToRecord(env.now)];
          Ok((Ledger(nullifiers, credits, l.verifications.(records := records)), true))
  }

  class RetirementVerifier {
    var vk: Option<Bytes>
    var nullifierRegistry: Option<Address>
    var creditRegistry: Option<Address>
    var testMode: bool
    var records: map<Bytes32, Record>

    constructor ()
      ensures State() == NO_VERIFICATIONS
    {
      vk, nullifierRegistry, creditRegistry, testMode, records := None, None, None, false, map[];
    }

    function State(): Verifications
      reads this
    {
      Verifications(vk, nullifierRegistry, creditRegistry, testMode, records)
    }

    method Initialize(key: Bytes, nullifiers: Address, credits: Address) returns (r: Outcome<()>)
      modifies this
      ensures r.Ok? == AfterInitialize(old(State()), key, nullifiers, credits).Ok?
      ensures r.Ok? ==> State() == AfterInitialize(old(State()), key, nullifiers, credits).value
    {
      if vk.Some? {
        return Panic;
      }
      vk := Some(key);
      nullifierRegistry := Some(nullifiers);
      creditRegistry := Some(credits);
      r := Ok(());
    }

    method SetTestMode(enabled: bool)
      modifies this
      ensures State() == old(State()).(testMode := enabled)
    {
      testMode := enabled;
    }

    method CallRecord(env: Env, nr: N.NullifierRegistry, nullifier: Bytes32) returns (r: Outcome<bool>)
      modifies nr
      ensures r.Ok? == RecordCall(Ledger(old(nr.State()), C.NO_CREDITS, State()), env, nullifier).Ok?
      ensures r.Ok? ==>
                (nr.State(), r.value) == RecordCall(Ledger(old(nr.State()), C.NO_CREDITS, State()), env, nullifier).value
    {
      if nullifierRegistry.None? {
        return Panic;
      }
      if nullifierRegistry.value == NULLIFIERS {
        r := nr.Record(nullifier, SELF);
      } else {
        r := env.foreignRecord;
      }
    }

    method CallBurn(env: Env, cr: C.CreditRegistry, claim: Claim) returns (r: Outcome<()>)
      requires claim.Readable()
      modifies cr
      ensures r.Ok? == BurnCall(Ledger(N.NO_NULLIFIERS, old(cr.State()), State()), env, claim).Ok?
      ensures r.Ok? ==> cr.State() == BurnCall(Ledger(N.NO_NULLIFIERS, old(cr.State()), State()), env, claim).value
    {
      if creditRegistry.None? {
        return Panic;
      }
      if creditRegistry.value == CREDITS {
        r := cr.BurnOnRetirement(env.Signed() + {SELF}, env.now, claim.tokenId, claim.owner, claim.Nullifier());
      } else {
        r := env.foreignBurn;
      }
    }

    /** On a panic the nullifier may already be recorded: the host has to undo it. */
    method VerifyRetirement(env: Env, nr: N.NullifierRegistry, cr: C.CreditRegistry, claim: Claim) returns (r: Outcome<bool>)
      modifies this, nr, cr
      ensures r.Ok? == AfterVerify(Ledger(old(nr.State()), old(cr.State()), old(State())), env, claim).Ok?
      ensures r.Ok? ==>
                (Ledger(nr.State(), cr.State(), State()), r.value)
                == AfterVerify(Ledger(old(nr.State()), old(cr.State()), old(State())), env, claim).value
    {
      if |claim.inputs| < 128 {
        return Panic;
      }
      var nullifier: Bytes32 := Field(claim.inputs, 0);
      var isValid: bool;
      if testMode {
        isValid := claim.proof != [];
      } else {
        if vk.None? {
          return Panic;
        }
        isValid := env.proves(vk.value, claim.inputs, claim.proof);
      }
      if !isValid {
        return Ok(false);
      }
      var recorded := CallRecord(env, nr, nullifier);
      if recorded.Panic? {
        return Panic;
      }
      if !recorded.value {
        return Ok(false);
      }
      var burned := CallBurn(env, cr, claim);
      if burned.Panic? {
        return Panic;
      }
      records := records[nullifier := claim.ToRecord(env.now)];
      r := Ok(true);
    }

    method GetRetirement(nullifier: Bytes32) returns (r: Option<Record>)
      ensures r == if nullifier in records then Some(records[nullifier]) else None
    {
      r := if nullifier in records then Some(records[nullifier]) else None;
    }
  }
}
