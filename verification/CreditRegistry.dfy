/** The credit registry contract: issuing, transferring and burning credit tokens. */
module CreditRegistry {
  import opened Arithmetic
  import opened Options
  import opened Host

  datatype Metadata = Metadata(
    creditHash: Bytes32, registryId: nat, vintageYear: nat, methodologyCode: nat, permanenceRating: nat,
    tonneVolume: nat, owner: Address, isRetired: bool, issuedAt: nat, retiredAt: nat, nullifier: Bytes32)

  /** What an issuer states about a credit. */
  datatype Terms = Terms(
    creditHash: Bytes32, registryId: nat, vintageYear: nat, methodologyCode: nat, permanenceRating: nat, tonneVolume: nat)

  datatype Credits = Credits(admin: Option<Address>, verifier: Option<Address>, cnt: nat, tokens: map<nat, Metadata>)

  const NO_CREDITS: Credits := Credits(None, None, 0, map[])

  function Issued(terms: Terms, owner: Address, now: nat): Metadata {
    Metadata(terms.creditHash, terms.registryId, terms.vintageYear, terms.methodologyCode, terms.permanenceRating,
             terms.tonneVolume, owner, false, now, 0, Zero32())
  }

  function AfterInitialize(s: Credits, admin: Address): Outcome<Credits> {
    if s.admin.Some? then Panic else Ok(s.(admin := Some(admin), cnt := 0))
  }

  function AfterIssue(s: Credits, auths: set<Address>, now: nat, owner: Address, terms: Terms): Outcome<(Credits, nat)> {
    if s.admin.None? || s.admin.value !in auths || s.cnt + 1 >= U64 then Panic
    else
      var id := s.cnt + 1;
      Ok((s.(tokens := s.tokens[id := Issued(terms, owner, now)], cnt := id), id))
  }

  function AfterTransfer(s: Credits, auths: set<Address>, id: nat, from: Address, recipient: Address): Outcome<Credits> {
    if from !in auths || id !in s.tokens || s.tokens[id].owner != from || s.tokens[id].isRetired then Panic
    else Ok(s.(tokens := s.tokens[id := s.tokens[id].(owner := recipient)]))
  }

  function AfterBurn(s: Credits, auths: set<Address>, now: nat, id: nat, owner: Address, nullifier: Bytes32): Outcome<Credits> {
    if s.verifier.None? || s.verifier.value !in auths then Panic
    else if id !in s.tokens || s.tokens[id].isRetired || s.tokens[id].owner != owner then Panic
    else Ok(s.(tokens := s.tokens[id := s.tokens[id].(isRetired := true, retiredAt := now, nullifier := nullifier)]))
  }

  function AfterSetVerifier(s: Credits, auths: set<Address>, verifier: Address): Outcome<Credits> {
    if s.admin.None? || s.admin.value !in auths then Panic else Ok(s.(verifier := Some(verifier)))
  }

  class CreditRegistry {
    var admin: Option<Address>
    var verifier: Option<Address>
    var cnt: nat
    var tokens: map<nat, Metadata>

    constructor ()
      ensures State() == NO_CREDITS
    {
      admin, verifier, cnt, tokens := None, None, 0, map[];
    }

    function State(): Credits
      reads this
    {
      Credits(admin, verifier, cnt, tokens)
    }

    method Initialize(newAdmin: Address) returns (r: Outcome<()>)
      modifies this
      ensures r.Ok? == AfterInitialize(old(State()), newAdmin).Ok?
      ensures r.Ok? ==> State() == AfterInitialize(old(State()), newAdmin).value
    {
      if admin.Some? {
        return Panic;
      }
      admin, cnt := Some(newAdmin), 0;
      r := Ok(());
    }

    method IssueCredit(auths: set<Address>, now: nat, owner: Address, terms: Terms) returns (r: Outcome<nat>)
      modifies this
      ensures r.Ok? == AfterIssue(old(State()), auths, now, owner, terms).Ok?
      ensures r.Ok? ==> (State(), r.value) == AfterIssue(old(State()), auths, now, owner, terms).value
    {
      if admin.None? || admin.value !in auths {
        return Panic;
      }
      if cnt + 1 >= U64 {
        return Panic;
      }
      var tokenId := cnt + 1;
      tokens := tokens[tokenId := Issued(terms, owner, now)];
      cnt := tokenId;
      r := Ok(tokenId);
    }

    method TransferCredit(auths: set<Address>, tokenId: nat, from: Address, recipient: Address) returns (r: Outcome<()>)
      modifies this
      ensures r.Ok? == AfterTransfer(old(State()), auths, tokenId, from, recipient).Ok?
      ensures r.Ok? ==> State() == AfterTransfer(old(State()), auths, tokenId, from, recipient).value
    {
      if from !in auths || tokenId !in tokens {
        return Panic;
      }
      var metadata := tokens[tokenId];
      if metadata.owner != from || metadata.isRetired {
        return Panic;
      }
      metadata := metadata.(owner := recipient);
      tokens := tokens[tokenId := metadata];
      r := Ok(());
    }

    method BurnOnRetirement(auths: set<Address>, now: nat, tokenId: nat, owner: Address, nullifier: Bytes32) returns (r: Outcome<()>)
      modifies this
      ensures r.Ok? == AfterBurn(old(State()), auths, now, tokenId, owner, nullifier).Ok?
      ensures r.Ok? ==> State() == AfterBurn(old(State()), auths, now, tokenId, owner, nullifier).value
    {
      if verifier.None? || verifier.value !in auths || tokenId !in tokens {
        return Panic;
      }
      var metadata := tokens[tokenId];
      if metadata.isRetired || metadata.owner != owner {
        return Panic;
      }
      metadata := metadata.(isRetired := true);
      metadata := metadata.(retiredAt := now);
      metadata := metadata.(nullifier := nullifier);
      tokens := tokens[tokenId := metadata];
      r := Ok(());
    }

    method SetVerifier(auths: set<Address>, newVerifier: Address) returns (r: Outcome<()>)
      modifies this
      ensures r.Ok? == AfterSetVerifier(old(State()), auths, newVerifier).Ok?
      ensures r.Ok? ==> State() == AfterSetVerifier(old(State()), auths, newVerifier).value
    {
      if admin.None? || admin.value !in auths {
        return Panic;
      }
      verifier := Some(newVerifier);
      r := Ok(());
    }
  }

  // ----- Token ids and frozen tokens

  /** The ids issued are exactly 1 to cnt. */
  ghost predicate Numbered(s: Credits) {
    && s.cnt < U64
    && (forall id :: id in s.tokens <==> 1 <= id <= s.cnt)
    && (s.admin.None? ==> s.cnt == 0)
  }

  /** One contract call that returned. */
  ghost predicate Next(s: Credits, t: Credits) {
    || (exists admin :: AfterInitialize(s, admin) == Ok(t))
    || (exists auths, now, owner, terms, id :: AfterIssue(s, auths, now, owner, terms) == Ok((t, id)))
    || (exists auths, id, from, recipient :: AfterTransfer(s, auths, id, from, recipient) == Ok(t))
    || (exists auths, now, id, owner, nullifier :: AfterBurn(s, auths, now, id, owner, nullifier) == Ok(t))
    || (exists auths, verifier :: AfterSetVerifier(s, auths, verifier) == Ok(t))
  }

  /** The terms a token was issued on. */
  function TermsOf(m: Metadata): Terms {
    Terms(m.creditHash, m.registryId, m.vintageYear, m.methodologyCode, m.permanenceRating, m.tonneVolume)
  }

  /** An issue files a live token under a new id, on exactly the issuer's terms. */
  lemma IssueFiles(s: Credits, auths: set<Address>, now: nat, owner: Address, terms: Terms)
    requires Numbered(s) && AfterIssue(s, auths, now, owner, terms).Ok?
    ensures var (t, id) := AfterIssue(s, auths, now, owner, terms).value;
            && id !in s.tokens && id in t.tokens && (forall i | i in s.tokens :: i in t.tokens && t.tokens[i] == s.tokens[i])
            && TermsOf(t.tokens[id]) == terms && t.tokens[id].owner == owner
            && !t.tokens[id].isRetired && t.tokens[id].issuedAt == now && t.tokens[id].nullifier == Zero32()
  {
  }

  lemma NumberedKept(s: Credits, t: Credits)
    requires Numbered(s) && Next(s, t)
    ensures Numbered(t) && t.cnt >= s.cnt
  {
  }

  /** Tokens never vanish, keep the terms they were issued with, and once retired never change. */
  lemma TokensKept(s: Credits, t: Credits, id: nat)
    requires Numbered(s) && Next(s, t) && id in s.tokens
    ensures id in t.tokens
    ensures s.tokens[id].isRetired ==> t.tokens[id] == s.tokens[id]
    ensures TermsOf(t.tokens[id]) == TermsOf(s.tokens[id]) && t.tokens[id].issuedAt == s.tokens[id].issuedAt
  {
  }

  // ----- Volumes

  /** Sum of a weight over tokens 1 to k. */
  ghost function Total(tokens: map<nat, Metadata>, k: nat, weight: Metadata -> nat): nat
    requires forall id | 1 <= id <= k :: id in tokens
  {
    if k == 0 then 0 else Total(tokens, k - 1, weight) + weight(tokens[k])
  }

  ghost function Whole(): Metadata -> nat { (m: Metadata) => m.tonneVolume }

  ghost function Retired(): Metadata -> nat { (m: Metadata) => if m.isRetired then m.tonneVolume else 0 }

  ghost function HeldBy(a: Address): Metadata -> nat {
    (m: Metadata) => if !m.isRetired && m.owner == a then m.tonneVolume else 0
  }

  ghost function IssuedVolume(s: Credits): nat
    requires Numbered(s)
  {
    Total(s.tokens, s.cnt, Whole())
  }

  ghost function RetiredVolume(s: Credits): nat
    requires Numbered(s)
  {
    Total(s.tokens, s.cnt, Retired())
  }

  ghost function Holding(s: Credits, a: Address): nat
    requires Numbered(s)
  {
    Total(s.tokens, s.cnt, HeldBy(a))
  }

  ghost function Holdings(s: Credits, owners: seq<Address>): nat
    requires Numbered(s)
  {
    if owners == [] then 0 else Holdings(s, owners[..|owners| - 1]) + Holding(s, owners[|owners| - 1])
  }

  lemma {:induction false} TotalUpdate(tokens: map<nat, Metadata>, k: nat, id: nat, m: Metadata, weight: Metadata -> nat)
    requires forall i | 1 <= i <= k :: i in tokens
    ensures 1 <= id <= k ==>
              Total(tokens[id := m], k, weight) + weight(tokens[id]) == Total(tokens, k, weight) + weight(m)
    ensures id > k ==> Total(tokens[id := m], k, weight) == Total(tokens, k, weight)
  {
    if k > 0 {
      TotalUpdate(tokens, k - 1, id, m, weight);
    }
  }

  lemma TransferMoves(s: Credits, auths: set<Address>, id: nat, from: Address, recipient: Address, other: Address)
    requires Numbered(s) && AfterTransfer(s, auths, id, from, recipient).Ok?
    requires other != from && other != recipient
    ensures var t := AfterTransfer(s, auths, id, from, recipient).value;
            && Numbered(t)
            && IssuedVolume(t) == IssuedVolume(s) && RetiredVolume(t) == RetiredVolume(s)
            && Holding(t, other) == Holding(s, other)
            && Holding(t, from) + Holding(t, recipient) == Holding(s, from) + Holding(s, recipient)
            && (from != recipient ==> Holding(t, recipient) == Holding(s, recipient) + s.tokens[id].tonneVolume)
  {
    var m := s.tokens[id].(owner := recipient);
    TotalUpdate(s.tokens, s.cnt, id, m, Whole());
    TotalUpdate(s.tokens, s.cnt, id, m, Retired());
    TotalUpdate(s.tokens, s.cnt, id, m, HeldBy(from));
    TotalUpdate(s.tokens, s.cnt, id, m, HeldBy(recipient));
    TotalUpdate(s.tokens, s.cnt, id, m, HeldBy(other));
  }

  lemma BurnMoves(s: Credits, auths: set<Address>, now: nat, id: nat, owner: Address, nullifier: Bytes32, other: Address)
    requires Numbered(s) && AfterBurn(s, auths, now, id, owner, nullifier).Ok? && other != owner
    ensures var t := AfterBurn(s, auths, now, id, owner, nullifier).value;
            && Numbered(t)
            && IssuedVolume(t) == IssuedVolume(s)
            && RetiredVolume(t) == RetiredVolume(s) + s.tokens[id].tonneVolume
            && Holding(t, owner) + s.tokens[id].tonneVolume == Holding(s, owner)
            && Holding(t, other) == Holding(s, other)
  {
    var m := s.tokens[id].(isRetired := true, retiredAt := now, nullifier := nullifier);
    TotalUpdate(s.tokens, s.cnt, id, m, Whole());
    TotalUpdate(s.tokens, s.cnt, id, m, Retired());
    TotalUpdate(s.tokens, s.cnt, id, m, HeldBy(owner));
    TotalUpdate(s.tokens, s.cnt, id, m, HeldBy(other));
  }

  lemma IssueAdds(s: Credits, auths: set<Address>, now: nat, owner: Address, terms: Terms, other: Address)
    requires Numbered(s) && AfterIssue(s, auths, now, owner, terms).Ok? && other != owner
    ensures var t := AfterIssue(s, auths, now, owner, terms).value.0;
            && Numbered(t)
            && IssuedVolume(t) == IssuedVolume(s) + terms.tonneVolume && RetiredVolume(t) == RetiredVolume(s)
            && Holding(t, owner) == Holding(s, owner) + terms.tonneVolume
            && Holding(t, other) == Holding(s, other)
  {
    var id, m := s.cnt + 1, Issued(terms, owner, now);
    TotalUpdate(s.tokens, s.cnt, id, m, Whole());
    TotalUpdate(s.tokens, s.cnt, id, m, Retired());
    TotalUpdate(s.tokens, s.cnt, id, m, HeldBy(owner));
    TotalUpdate(s.tokens, s.cnt, id, m, HeldBy(other));
  }

  /** owners lists every owner of a live token, once. */
  ghost predicate AllOwners(s: Credits, owners: seq<Address>) {
    && (forall i, j | 0 <= i < j < |owners| :: owners[i] != owners[j])
    && forall id | id in s.tokens && !s.tokens[id].isRetired :: s.tokens[id].owner in owners
  }

  /** Sum of one token's weights over a list of owners. */
  ghost function Shares(m: Metadata, owners: seq<Address>): nat {
    if owners == [] then 0 else Shares(m, owners[..|owners| - 1]) + HeldBy(owners[|owners| - 1])(m)
  }

  lemma {:induction false} OneShare(m: Metadata, owners: seq<Address>)
    requires forall i, j | 0 <= i < j < |owners| :: owners[i] != owners[j]
    ensures Shares(m, owners) == if !m.isRetired && m.owner in owners then m.tonneVolume else 0
  {
    if owners != [] {
      OneShare(m, owners[..|owners| - 1]);
      assert owners == owners[..|owners| - 1] + [owners[|owners| - 1]];
    }
  }

  ghost function Split(tokens: map<nat, Metadata>, k: nat, owners: seq<Address>): nat
    requires forall id | 1 <= id <= k :: id in tokens
  {
    if owners == [] then 0 else Split(tokens, k, owners[..|owners| - 1]) + Total(tokens, k, HeldBy(owners[|owners| - 1]))
  }

  lemma {:induction false} SplitStep(tokens: map<nat, Metadata>, k: nat, owners: seq<Address>)
    requires forall id | 1 <= id <= k :: id in tokens
    ensures Split(tokens, k, owners) == if k == 0 then 0 else Split(tokens, k - 1, owners) + Shares(tokens[k], owners)
  {
    if owners != [] {
      SplitStep(tokens, k, owners[..|owners| - 1]);
    }
  }

  lemma {:induction false} SplitTotals(tokens: map<nat, Metadata>, k: nat, owners: seq<Address>)
    requires forall id | 1 <= id <= k :: id in tokens
    requires forall i, j | 0 <= i < j < |owners| :: owners[i] != owners[j]
    requires forall id | 1 <= id <= k && !tokens[id].isRetired :: tokens[id].owner in owners
    ensures Split(tokens, k, owners) + Total(tokens, k, Retired()) == Total(tokens, k, Whole())
  {
    SplitStep(tokens, k, owners);
    if k > 0 {
      SplitTotals(tokens, k - 1, owners);
      OneShare(tokens[k], owners);
    }
  }

  lemma {:induction false} HoldingsAreSplit(s: Credits, owners: seq<Address>)
    requires Numbered(s)
    ensures Holdings(s, owners) == Split(s.tokens, s.cnt, owners)
  {
    if owners != [] {
      HoldingsAreSplit(s, owners[..|owners| - 1]);
    }
  }

  /** Issued volume is what owners hold plus what is retired. */
  lemma VolumeConserved(s: Credits, owners: seq<Address>)
    requires Numbered(s) && AllOwners(s, owners)
    ensures Holdings(s, owners) + RetiredVolume(s) == IssuedVolume(s)
  {
    HoldingsAreSplit(s, owners);
    SplitTotals(s.tokens, s.cnt, owners);
  }
}
