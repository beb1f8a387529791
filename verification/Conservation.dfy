/** Credit volume over runs of the contracts: what was issued is held or retired. */
module Conservation {
  import opened PublicInputs
  import opened Host
  import opened RetirementVerifier
  import opened Ledgers
  import opened Runs
  import N = NullifierRegistry
  import opened C = CreditRegistry

  /** Volume a call issues. */
  function IssuedBy(l: Ledger, entry: Entry): nat {
    if entry.call.Issue? && Step(l, entry.env, entry.call).1.Ok? then entry.call.terms.tonneVolume else 0
  }

  /** Volume issued by all calls of a run. */
  function IssuedOver(l: Ledger, entries: seq<Entry>): nat {
    if entries == [] then 0
    else
      var last := |entries| - 1;
      IssuedOver(l, entries[..last]) + IssuedBy(Run(l, entries[..last]), entries[last])
  }

  /** A change of one token that keeps its volume and does not bring it back from retirement. */
  lemma TokenChange(s: Credits, t: Credits, id: nat)
    requires Numbered(s) && t.cnt == s.cnt && id in s.tokens && id in t.tokens && t.tokens == s.tokens[id := t.tokens[id]]
    requires t.tokens[id].tonneVolume == s.tokens[id].tonneVolume && (s.tokens[id].isRetired ==> t.tokens[id].isRetired)
    requires Numbered(t)
    ensures IssuedVolume(t) == IssuedVolume(s) && RetiredVolume(t) >= RetiredVolume(s)
  {
    TotalUpdate(s.tokens, s.cnt, id, t.tokens[id], Whole());
    TotalUpdate(s.tokens, s.cnt, id, t.tokens[id], Retired());
  }

  lemma IssueVolume(s: Credits, env: Env, owner: Address, terms: Terms)
    requires Numbered(s) && AfterIssue(s, env.Signed(), env.now, owner, terms).Ok?
    ensures var t := AfterIssue(s, env.Signed(), env.now, owner, terms).value.0;
            Numbered(t) && IssuedVolume(t) == IssuedVolume(s) + terms.tonneVolume && RetiredVolume(t) == RetiredVolume(s)
  {
    IssueAdds(s, env.Signed(), env.now, owner, terms, if owner == Account(0) then Account(1) else Account(0));
  }

  /** Which token a call changes, when it changes one. */
  lemma StepOnTokens(l: Ledger, env: Env, call: Call) returns (id: nat)
    requires Numbered(l.credits) && !call.Issue?
    ensures var s, t := l.credits, Step(l, env, call).0.credits;
            && t.cnt == s.cnt
            && (t.tokens == s.tokens
                || (&& id in s.tokens && id in t.tokens && t.tokens == s.tokens[id := t.tokens[id]]
                    && t.tokens[id].tonneVolume == s.tokens[id].tonneVolume
                    && (s.tokens[id].isRetired ==> t.tokens[id].isRetired)))
  {
    hide ReadU32, Field, N.AfterRecord, N.AfterInitialize;
    id := if call.Transfer? || call.Burn? then call.id else if call.Verify? then call.claim.tokenId else 0;
  }

  lemma StepVolumes(l: Ledger, entry: Entry)
    requires Sound(l)
    ensures var m := Step(l, entry.env, entry.call).0;
            && Numbered(m.credits)
            && IssuedVolume(m.credits) == IssuedVolume(l.credits) + IssuedBy(l, entry)
            && RetiredVolume(m.credits) >= RetiredVolume(l.credits)
  {
    StepGrows(l, entry.env, entry.call);
    if entry.call.Issue? {
      if Step(l, entry.env, entry.call).1.Ok? {
        IssueVolume(l.credits, entry.env, entry.call.owner, entry.call.terms);
      }
    } else {
      hide Step;
      var id := StepOnTokens(l, entry.env, entry.call);
      if Step(l, entry.env, entry.call).0.credits.tokens != l.credits.tokens {
        TokenChange(l.credits, Step(l, entry.env, entry.call).0.credits, id);
      }
    }
  }

  /**
  Conservation over every run: the volume of all successful issues is what the owners hold
  plus what is retired, however tokens were transferred and burned in between.
   */
  lemma {:induction false} RunConserves(entries: seq<Entry>, owners: seq<Address>)
    requires AllOwners(Run(GENESIS, entries).credits, owners)
    ensures Numbered(Run(GENESIS, entries).credits)
    ensures Holdings(Run(GENESIS, entries).credits, owners) + RetiredVolume(Run(GENESIS, entries).credits)
         == IssuedOver(GENESIS, entries)
  {
    hide Sound, Run;
    RunSound(entries);
    SoundCredits(Run(GENESIS, entries));
    RunIssues(entries);
    VolumeConserved(Run(GENESIS, entries).credits, owners);
  }

  lemma SoundCredits(l: Ledger)
    requires Sound(l)
    ensures Numbered(l.credits)
  {
  }

  lemma {:induction false} RunIssues(entries: seq<Entry>)
    ensures Numbered(Run(GENESIS, entries).credits)
    ensures IssuedVolume(Run(GENESIS, entries).credits) == IssuedOver(GENESIS, entries)
  {
    hide Step, Sound, IssuedBy;
    if entries != [] {
      var last := |entries| - 1;
      RunIssues(entries[..last]);
      RunSound(entries[..last]);
      StepVolumes(Run(GENESIS, entries[..last]), entries[last]);
    }
  }

  /** Retired volume never decreases, and ids stay exactly 1 to the counter. */
  lemma {:induction false} RetiredVolumeGrows(l: Ledger, entries: seq<Entry>)
    requires Sound(l)
    ensures Numbered(l.credits) && Numbered(Run(l, entries).credits)
    ensures RetiredVolume(Run(l, entries).credits) >= RetiredVolume(l.credits)
  {
    hide Step, Sound;
    SoundCredits(l);
    if entries != [] {
      var last := |entries| - 1;
      RetiredVolumeGrows(l, entries[..last]);
      RunKeeps(l, entries[..last]);
      StepVolumes(Run(l, entries[..last]), entries[last]);
    }
  }
}
