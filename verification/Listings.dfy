/** What the keys look like from outside: a listing, or one key, over an API that answers each
    question or does not (internal/legacy/provider.go). */
module Listings {
  import opened Credentials
  import opened Accounts
  import opened Revocations
  import Fetching

  /** How the API takes a question: answered, refused, or not answered. */
  datatype Query = Given | Denied | Down

  /** The answers a listing meets: to the question for the identifiers, and to that for each key. */
  datatype Asking = Asking(ids: Query, details: nat -> Query)

  /** What it comes to: the keys read, the number of those that were not, and the error. */
  datatype Listing = Listing(keys: seq<Credential>, unreadable: nat, fault: Fault)

  /** The answer for one key of the account. */
  function DetailOf(c: Credential, query: Query): Fetching.Detail {
    match query
    case Given => Fetching.Read(c)
    case Denied => Fetching.Detail.Refused
    case Down => Fetching.Broken
  }

  function Details(cs: seq<Credential>, details: nat -> Query): seq<Fetching.Detail> {
    seq(|cs|, i requires 0 <= i < |cs| => DetailOf(cs[i], details(i)))
  }

  function ListingOf(a: Account, asking: Asking): Listing {
    match asking.ids
    case Denied => Listing([], 0, {PermissionDenied})
    case Down => Listing([], 0, {ApiFailure})
    case Given =>
      match Fetching.Outcome(Details(a.credentials, asking.details))
      case Complete(keys) => Listing(keys, 0, {})
      case Short(keys, unreadable) => Listing(keys, unreadable, {})
      case Unusable(refused) => Listing([], 0, {if refused then PermissionDenied else ApiFailure})
  }

  /** The account as the answers are about it. */
  function Truth(cs: seq<Credential>): seq<Option<Credential>> {
    seq(|cs|, i requires 0 <= i < |cs| => Some(cs[i]))
  }

  lemma {:induction false} AllArePresent(cs: seq<Credential>)
    ensures Fetching.Present(Truth(cs)) == cs
  {
    if cs != [] {
      AllArePresent(cs[1..]);
      assert Truth(cs)[1..] == Truth(cs[1..]);
      assert cs == [cs[0]] + cs[1..];
    }
  }

  /** Some key meets with such an answer. */
  ghost predicate Meets(a: Account, asking: Asking, query: Query) {
    exists i: nat :: i < |a.credentials| && asking.details(i) == query
  }

  /** Nothing was refused, and something was read unless there is nothing to read. */
  ghost predicate IsUsable(a: Account, asking: Asking) {
    && asking.ids.Given?
    && !Meets(a, asking, Denied)
    && (Meets(a, asking, Given) || a.credentials == [])
  }

  ghost predicate IsDenied(a: Account, asking: Asking) {
    asking.ids.Denied? || (asking.ids.Given? && Meets(a, asking, Denied))
  }

  lemma {:induction false} NoneRevoked(details: seq<Fetching.Detail>)
    requires forall d :: d in details ==> !d.Revoked?
    ensures Fetching.CountRevoked(details) == 0
  {
    if details != [] {
      NoneRevoked(details[..|details| - 1]);
    }
  }

  ghost predicate IsRead(a: Account, asking: Asking, c: Credential) {
    exists i: nat :: i < |a.credentials| && asking.details(i).Given? && a.credentials[i] == c
  }

  lemma ToldTruly(cs: seq<Credential>, details: nat -> Query)
    ensures Fetching.Truthful(Details(cs, details), Truth(cs))
  {
    var found, truth := Details(cs, details), Truth(cs);
    forall i | 0 <= i < |found|
      ensures match found[i]
              case Read(key) => truth[i] == Some(key)
              case Revoked => truth[i].None?
              case _ => true
    {
      assert found[i] == DetailOf(cs[i], details(i));
    }
  }

  /** A listing is the keys that were answered for, in their order, short of as many as it counts;
      refusals fail it, and so does reading nothing. */
  lemma ListingExactly(a: Account, asking: Asking)
    ensures var so := ListingOf(a, asking);
            && (so.fault == {} <==> IsUsable(a, asking))
            && (PermissionDenied in so.fault <==> IsDenied(a, asking))
            && (so.fault == {} || so.fault == {PermissionDenied} || so.fault == {ApiFailure})
            && (so.fault != {} ==> so.keys == [] && so.unreadable == 0)
            && (so.fault == {} ==>
                  && Partial(so.keys, a.credentials, so.unreadable)
                  && |so.keys| + so.unreadable == |a.credentials|
                  && (so.unreadable == 0 <==> !Meets(a, asking, Down))
                  && (forall c :: c in so.keys <==> IsRead(a, asking, c)))
  {
    if asking.ids.Given? {
      var cs := a.credentials;
      var details := Details(cs, asking.details);
      DetailsByQuery(a, asking);
      ToldTruly(cs, asking.details);
      AllArePresent(cs);
      Fetching.UsableListingsArePartial(details, Truth(cs));
      Fetching.OutcomeExactly(details);
      Fetching.NoneFailed(details);
      Fetching.NoneRead(details);
      Fetching.EveryIdentifierCounts(details);
      NoneRevoked(details);
      CompleteIsPartial(cs);
    }
  }

  lemma DetailsByQuery(a: Account, asking: Asking)
    ensures var details := Details(a.credentials, asking.details);
            && (Fetching.Detail.Refused in details <==> Meets(a, asking, Denied))
            && (Fetching.Broken in details <==> Meets(a, asking, Down))
            && ((exists d :: d in details && d.Read?) <==> Meets(a, asking, Given))
            && (forall c :: Fetching.Read(c) in details <==> IsRead(a, asking, c))
            && (forall d :: d in details ==> !d.Revoked?)
  {
    var details := Details(a.credentials, asking.details);
    forall i: nat | i < |a.credentials|
      ensures details[i] == DetailOf(a.credentials[i], asking.details(i)) && details[i] in details
    {
    }
  }

  lemma {:induction false} CompleteIsPartial(cs: seq<Credential>)
    ensures Partial(cs, cs, 0)
  {
    if cs != [] {
      CompleteIsPartial(cs[1..]);
    }
  }

  /** The first key with the identifier. */
  function KeyWith(cs: seq<Credential>, id: int): (found: Option<Credential>)
    ensures found.Some? <==> Listed(cs, id)
    ensures found.Some? ==> exists i :: 0 <= i < |cs| && cs[i] == found.value && cs[i].id == id
                                        && forall j :: 0 <= j < i ==> cs[j].id != id
  {
    if cs == [] then None
    else if cs[0].id == id then Some(cs[0])
    else
      assert forall j :: 1 <= j < |cs| ==> cs[j] == cs[1..][j - 1];
      KeyWith(cs[1..], id)
  }

  lemma KeyWithIs(cs: seq<Credential>, id: int, i: nat)
    requires i < |cs| && cs[i].id == id && forall j :: 0 <= j < i ==> cs[j].id != id
    ensures KeyWith(cs, id) == Some(cs[i])
  {
  }

  /** The key in use, when the API tells which it is. */
  function CurrentOf(a: Account, own: int, identity: Identity): (current: Option<Credential>)
    ensures current.Some? <==> identity.Told? && Listed(a.credentials, own)
    ensures current.Some? ==> current.value in a.credentials && current.value.id == own
  {
    if IdentityFault(a, own, identity) == {} then KeyWith(a.credentials, own) else None
  }
}
