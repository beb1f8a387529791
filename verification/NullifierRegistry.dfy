/** The nullifier registry contract. */
module NullifierRegistry {
  import opened Arithmetic
  import opened Options
  import opened Host

  /** Contract storage; a counter that was never stored reads as 0. */
  datatype Nullifiers = Nullifiers(verifier: Option<Address>, used: set<Bytes32>, count: nat)

  const NO_NULLIFIERS: Nullifiers := Nullifiers(None, {}, 0)

  function AfterInitialize(s: Nullifiers, verifier: Address): Outcome<Nullifiers> {
    if s.verifier.Some? then Panic else Ok(s.(verifier := Some(verifier), count := 0))
  }

  /** Only the caller argument is compared; the contract asks for no signature. */
  function AfterRecord(s: Nullifiers, nullifier: Bytes32, caller: Address): Outcome<(Nullifiers, bool)> {
    if s.verifier != Some(caller) then Panic
    else if nullifier in s.used then Ok((s, false))
    else if s.count + 1 >= U64 then Panic
    else Ok((s.(used := s.used + {nullifier}, count := s.count + 1), true))
  }

  /** The counter counts the nullifiers. */
  predicate Counted(s: Nullifiers) {
    && s.count == |s.used| < U64
    && (s.verifier.None? ==> s.used == {})
  }

  /** One contract call that returned. */
  ghost predicate Next(s: Nullifiers, t: Nullifiers) {
    || (exists verifier :: AfterInitialize(s, verifier) == Ok(t))
    || (exists nullifier, caller, b :: AfterRecord(s, nullifier, caller) == Ok((t, b)))
  }

  lemma CountedKept(s: Nullifiers, t: Nullifiers)
    requires Counted(s) && Next(s, t)
    ensures Counted(t) && s.used <= t.used && s.count <= t.count
  {
  }

  class NullifierRegistry {
    var verifier: Option<Address>
    var used: set<Bytes32>
    var count: nat

    constructor ()
      ensures State() == NO_NULLIFIERS
    {
      verifier, used, count := None, {}, 0;
    }

    function State(): Nullifiers
      reads this
    {
      Nullifiers(verifier, used, count)
    }

    method Initialize(authorizedVerifier: Address) returns (r: Outcome<()>)
      modifies this
      ensures r.Ok? == AfterInitialize(old(State()), authorizedVerifier).Ok?
      ensures r.Ok? ==> State() == AfterInitialize(old(State()), authorizedVerifier).value
    {
      if verifier.Some? {
        return Panic;
      }
      verifier := Some(authorizedVerifier);
      count := 0;
      r := Ok(());
    }

    /** On a panic the nullifier may already be stored: the host has to undo it. */
    method Record(nullifier: Bytes32, caller: Address) returns (r: Outcome<bool>)
      modifies this
      ensures r.Ok? == AfterRecord(old(State()), nullifier, caller).Ok?
      ensures r.Ok? ==> (State(), r.value) == AfterRecord(old(State()), nullifier, caller).value
    {
      if verifier.None? || caller != verifier.value {
        return Panic;
      }
      if nullifier in used {
        return Ok(false);
      }
      used := used + {nullifier};
      if count + 1 >= U64 {
        return Panic;
      }
      count := count + 1;
      r := Ok(true);
    }

    method IsUsed(nullifier: Bytes32) returns (isUsed: bool)
      ensures isUsed <==> nullifier in used
    {
      isUsed := nullifier in used;
    }

    method Count() returns (n: nat)
      ensures Counted(State()) ==> n == |used|
    {
      n := count;
    }
  }
}
