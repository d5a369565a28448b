/** What each finding tells of the credential, in the terms of the credential alone
    (internal/audit/audit.go). */
module Causes {
  import opened Text
  import opened Net
  import opened Credentials
  import opened Audit
  import opened Inspection

  const NANOSECONDS_A_DAY := 86_400_000_000_000

  /** Usable or waiting to be validated, on an application that was not deleted. */
  ghost predicate Counts(c: Credential) {
    c.status in {Validated, PendingValidation} && !c.application.deleted
  }

  /** Nothing is said of a key that opens nothing, and a waiting one is said to wait. */
  lemma OnlyLiveKeysAreExamined(branches: seq<Branch>, c: Credential, now: int)
    ensures c.application.deleted || c.status.Expired? || c.status.Refused? || c.status.Other?
            ==> Findings(branches, c, now) == []
    ensures Raised(branches, c, now, AwaitsValidation) <==> c.status.PendingValidation? && !c.application.deleted
  {
    RaisedFrom(branches, c, now, AwaitsValidation);
  }

  lemma RaisedFrom(branches: seq<Branch>, c: Credential, now: int, code: Code)
    ensures var broad, account, billing := RaisesBroad(c.rules), Raises(branches, c.rules, AccountControl),
                                           Raises(branches, c.rules, BillingAccess);
            Raised(branches, c, now, code) <==> Examines(c) && GroundsGiven(c, now, broad, account, billing, code)
    ensures Examines(c) <==> Counts(c)
  {
    RaisedOnItsGrounds(c, now, RaisesBroad(c.rules), Raises(branches, c.rules, AccountControl),
                       Raises(branches, c.rules, BillingAccess), code);
  }

  /** Open to any address: without a list, or with a block in it that holds a whole family. */
  ghost predicate OpenToAnyAddress(allowed: seq<Prefix>) {
    allowed == [] || exists p :: p in allowed && HoldsItsFamily(p)
  }

  lemma OpenAddressesAreReported(branches: seq<Branch>, c: Credential, now: int)
    ensures Raised(branches, c, now, NoIPRestriction) <==> Counts(c) && OpenToAnyAddress(c.allowed)
  {
    RaisedFrom(branches, c, now, NoIPRestriction);
    forall i | 0 <= i < |c.allowed| ensures HoldsItsFamily(c.allowed[i]) <==> c.allowed[i].bits == 0 {
      HoldsItsFamilyExactly(c.allowed[i]);
    }
    assert forall i :: 0 <= i < |c.allowed| ==> c.allowed[i] in c.allowed;
  }

  /** A description of white space is none. */
  lemma MissingDescriptionsAreReported(branches: seq<Branch>, c: Credential, now: int)
    ensures Raised(branches, c, now, NoDescription) <==> Counts(c) && TrimSpace(c.application.description) == ""
  {
    RaisedFrom(branches, c, now, NoDescription);
    TrimmedAway(c.application.description);
  }

  /** The dates, in days: seven to the expiry, thirty without a use and a hundred and eighty since the
      last one. Of a key not yet validated no use is expected. */
  lemma DatesAreReported(branches: seq<Branch>, c: Credential, now: int)
    ensures Raised(branches, c, now, NoExpiry) <==> Counts(c) && c.expiresAt.None?
    ensures Raised(branches, c, now, ExpiresSoon)
            <==> Counts(c) && c.expiresAt.Some? && 0 < c.expiresAt.value - now <= 7 * NANOSECONDS_A_DAY
    ensures Raised(branches, c, now, NeverUsed)
            <==> Counts(c) && c.status.Validated? && c.lastUsedAt.None?
                 && c.createdAt.Some? && now - c.createdAt.value > 30 * NANOSECONDS_A_DAY
    ensures Raised(branches, c, now, Dormant)
            <==> Counts(c) && c.status.Validated? && c.lastUsedAt.Some?
                 && now - c.lastUsedAt.value > 180 * NANOSECONDS_A_DAY
  {
    RaisedFrom(branches, c, now, NoExpiry);
    RaisedFrom(branches, c, now, ExpiresSoon);
    RaisedFrom(branches, c, now, NeverUsed);
    RaisedFrom(branches, c, now, Dormant);
  }

  /** The methods a branch counts: all when it names none, otherwise each it names in any letter case. */
  lemma WritesAreCounted(branch: Branch, verb: string)
    ensures branch.verbs == [] ==> Admits(branch, verb)
    ensures branch.verbs == WRITES
            ==> (Admits(branch, verb)
                 <==> EqualFold("POST", verb) || EqualFold("PUT", verb) || EqualFold("DELETE", verb))
  {
    if branch.verbs == WRITES {
      NamedMethods(branch, verb, "POST", "PUT", "DELETE");
    }
  }

  lemma NamedMethods(branch: Branch, verb: string, first: string, second: string, third: string)
    requires branch.verbs == [first, second, third]
    ensures Admits(branch, verb) <==> EqualFold(first, verb) || EqualFold(second, verb) || EqualFold(third, verb)
  {
    assert branch.verbs[0] == first && branch.verbs[1] == second && branch.verbs[2] == third;
  }
}
