/** What the contract host provides: addresses, outcomes of calls, and the context of a call. */
module Host {
  import opened PublicInputs

  datatype Address = Account(id: nat) | Contract(id: nat)

  /** A call returns a value or panics; the host then undoes everything the call did. */
  datatype Outcome<+T> = Ok(value: T) | Panic

  type Bytes32 = b: Bytes | |b| == 32 witness seq(32, _ => 0)

  function Zero32(): Bytes32 { seq(32, _ => 0) }
}
