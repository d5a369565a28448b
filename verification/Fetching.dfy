/** What a listing makes of the answers the pool brought back, and the applications its keys are
    shown under (internal/legacy/provider.go). */
module Fetching {
  import opened Credentials
  import opened Accounts
  import opened Pool

  /** The answer to one detail call. A key revoked since it was listed is gone rather than failed. */
  datatype Detail = Read(key: Credential) | Revoked | Refused | Broken

  datatype Listing =
    | Complete(keys: seq<Credential>) | Short(keys: seq<Credential>, unreadable: nat) | Unusable(refused: bool)

  predicate Fails(d: Detail) {
    d.Refused? || d.Broken?
  }

  function Readable(details: seq<Detail>): seq<Credential> {
    if details == [] then []
    else Readable(details[..|details| - 1])
         + (var d := details[|details| - 1]; if d.Read? then [d.key] else [])
  }

  function CountRevoked(details: seq<Detail>): nat {
    if details == [] then 0
    else CountRevoked(details[..|details| - 1]) + (if details[|details| - 1].Revoked? then 1 else 0)
  }

  function CountFailed(details: seq<Detail>): nat {
    if details == [] then 0
    else CountFailed(details[..|details| - 1]) + (if Fails(details[|details| - 1]) then 1 else 0)
  }

  /** Read, revoked and failed: every identifier is accounted for once. */
  lemma {:induction false} EveryIdentifierCounts(details: seq<Detail>)
    ensures |Readable(details)| + CountRevoked(details) + CountFailed(details) == |details|
  {
    if details != [] {
      EveryIdentifierCounts(details[..|details| - 1]);
    }
  }

  /** The outcome of a listing: a refusal or an empty result fails it, other failures shorten it. */
  function Outcome(details: seq<Detail>): Listing {
    var refused := exists i :: 0 <= i < |details| && details[i].Refused?;
    var failures := CountFailed(details);
    if failures == 0 then Complete(Readable(details))
    else if refused || Readable(details) == [] then Unusable(refused)
    else Short(Readable(details), failures)
  }

  /** The places of the calls that failed. */
  ghost function Failures(details: seq<Detail>): set<int> {
    set i | 0 <= i < |details| && (details[i].Refused? || details[i].Broken?)
  }

  /** A listing fails when a call was refused, or when calls failed and no key was read; it is short
      when other calls failed, by as many; and complete otherwise. */
  lemma OutcomeExactly(details: seq<Detail>)
    ensures var so := Outcome(details);
            && (so.Complete? <==> forall d :: d in details ==> d.Read? || d.Revoked?)
            && (so.Unusable? <==> || Detail.Refused in details
                                  || (Broken in details && forall d :: d in details ==> !d.Read?))
            && (so.Unusable? ==> (so.refused <==> Detail.Refused in details))
            && (so.Short? ==> so.unreadable == |Failures(details)|)
            && (!so.Unusable? ==> forall c :: c in so.keys <==> Read(c) in details)
  {
    FailuresAreCounted(details);
    ReadableAre(details);
    NoneRead(details);
    NoneFailed(details);
    assert Detail.Refused in details <==> exists i :: 0 <= i < |details| && details[i].Refused?;
  }

  lemma NoneRead(details: seq<Detail>)
    ensures Readable(details) == [] <==> forall d :: d in details ==> !d.Read?
  {
    ReadableAre(details);
    if Readable(details) != [] {
      assert Read(Readable(details)[0]) in details;
    }
    if d :| d in details && d.Read? {
      assert d.key in Readable(details);
    }
  }

  lemma NoneFailed(details: seq<Detail>)
    ensures CountFailed(details) == 0 <==> Broken !in details && Detail.Refused !in details
  {
    FailuresAreCounted(details);
    var failed := Failures(details);
    if i :| 0 <= i < |details| && (details[i].Refused? || details[i].Broken?) {
      NotEmpty(failed, i);
    } else {
      assert failed == {};
    }
  }

  lemma NotEmpty(s: set<int>, i: int)
    requires i in s
    ensures |s| > 0
  {
  }

  lemma {:induction false} FailuresAreCounted(details: seq<Detail>)
    ensures CountFailed(details) == |Failures(details)|
  {
    var failed := Failures(details);
    if details == [] {
      assert failed == {};
    } else {
      var init, last := details[..|details| - 1], |details| - 1;
      var before := Failures(init);
      FailuresAreCounted(init);
      assert failed == before + if Fails(details[last]) then {last} else {};
    }
  }

  lemma {:induction false} ReadableAre(details: seq<Detail>)
    ensures forall c :: c in Readable(details) <==> Read(c) in details
  {
    if details != [] {
      ReadableAre(details[..|details| - 1]);
      assert details == details[..|details| - 1] + [details[|details| - 1]];
    }
  }

  /** Fetching through the pool, in whatever order the workers answer, and reading the slots back. */
  method FetchAll(details: seq<Detail>) returns (listing: Listing)
    ensures listing == Outcome(details)
  {
    var slots := Fetch(details);
    var keys: seq<Credential>, unreadable: nat, refused := [], 0, false;
    assert details[..0] == [];
    for i := 0 to |slots|
      invariant keys == Readable(details[..i])
      invariant unreadable == CountFailed(details[..i])
      invariant refused <==> exists j :: 0 <= j < i && details[j].Refused?
    {
      assert details[..i + 1][..i] == details[..i];
      match slots[i] {
        case Read(key) => keys := keys + [key];
        case Revoked =>
        case Refused =>
          unreadable := unreadable + 1;
          refused := true;
        case Broken => unreadable := unreadable + 1;
      }
    }
    assert details[..|details|] == details;
    if unreadable == 0 {
      return Complete(keys);
    } else if refused || keys == [] {
      return Unusable(refused);
    }
    return Short(keys, unreadable);
  }

  /** The keys still there, for a listing of identifiers some of which are gone. */
  function Present(truth: seq<Option<Credential>>): seq<Credential> {
    if truth == [] then []
    else (if truth[0].Some? then [truth[0].value] else []) + Present(truth[1..])
  }

  /** An honest API answers with the key that is there, or that it is gone when it is, or fails. */
  predicate Truthful(details: seq<Detail>, truth: seq<Option<Credential>>) {
    |details| == |truth| && forall i :: 0 <= i < |details| ==>
      match details[i]
      case Read(key) => truth[i] == Some(key)
      case Revoked => truth[i].None?
      case _ => true
  }

  /** A usable listing is the keys present, in order, short of at most as many as it counts. */
  lemma UsableListingsArePartial(details: seq<Detail>, truth: seq<Option<Credential>>)
    requires Truthful(details, truth)
    ensures match Outcome(details)
            case Complete(keys) => keys == Present(truth)
            case Short(keys, unreadable) => unreadable > 0 && Partial(keys, Present(truth), unreadable)
            case Unusable(_) => true
  {
    ReadablePartial(details, truth);
    if CountFailed(details) == 0 {
      CompleteListing(Readable(details), Present(truth));
    }
  }

  lemma {:induction false} ReadablePartial(details: seq<Detail>, truth: seq<Option<Credential>>)
    requires Truthful(details, truth)
    ensures Partial(Readable(details), Present(truth), CountFailed(details))
  {
    if details != [] {
      var d, t := details[0], truth[0];
      ReadablePartial(details[1..], truth[1..]);
      FromTheFront(details);
      var rest, here := Readable(details[1..]), Present(truth[1..]);
      if t.Some? {
        assert Present(truth)[1..] == here;
        if d.Read? {
          assert ([d.key] + rest)[1..] == rest;
        } else {
          assert [] + rest == rest;
        }
      } else {
        assert Present(truth) == here && [] + rest == rest;
        if Fails(d) {
          MoreUnreadable(rest, here, CountFailed(details[1..]));
        }
      }
    }
  }

  lemma {:induction false} MoreUnreadable(listing: seq<Credential>, cs: seq<Credential>, unreadable: nat)
    requires Partial(listing, cs, unreadable)
    ensures Partial(listing, cs, unreadable + 1)
  {
    if cs != [] {
      if listing != [] && listing[0] == cs[0] && Partial(listing[1..], cs[1..], unreadable) {
        MoreUnreadable(listing[1..], cs[1..], unreadable);
      } else {
        MoreUnreadable(listing, cs[1..], unreadable - 1);
      }
    }
  }

  lemma {:induction false} FromTheFront(details: seq<Detail>)
    requires details != []
    ensures Readable(details) == (if details[0].Read? then [details[0].key] else []) + Readable(details[1..])
    ensures CountFailed(details) == (if Fails(details[0]) then 1 else 0) + CountFailed(details[1..])
  {
    if |details| == 1 {
      assert details[..0] == [] && details[1..] == [];
    } else {
      var init := details[..|details| - 1];
      FromTheFront(init);
      assert init[1..] == details[1..][..|details[1..]| - 1];
    }
  }

  // The applications keys are shown under

  datatype Reading = Answered(app: Application) | Unknown | Failing

  /** One application, read through its own route and, failing that, through one of its keys. */
  function ApplicationOf(c: Credential, route: Reading, fallback: Reading): Application {
    if route.Answered? then route.app
    else if route.Unknown? && fallback.Unknown? then Application(c.application.id, "", "", "", false, true)
    else if !fallback.Answered? then c.application
    else fallback.app.(external := route.Unknown?)
  }

  /** What becomes of the application a key names: the account's own, somebody else's, or deleted. */
  datatype Fate = Own(app: Application) | Foreign(app: Application) | Gone

  /** An application as the API tells of it: the one asked for, without either mark. */
  predicate ToldOf(app: Application, id: int) {
    app.id == id && !app.external && !app.deleted
  }

  /** What the API says of an application, if it says anything: its own route knows those of the
      account, and the route of a key all but the deleted ones. */
  predicate Truthfully(id: int, fate: Fate, route: Reading, fallback: Reading) {
    && (!fate.Gone? ==> ToldOf(fate.app, id))
    && (route.Answered? ==> fate == Own(route.app))
    && (route.Unknown? ==> !fate.Own?)
    && (fallback.Answered? ==> !fate.Gone? && fallback.app == fate.app)
    && (fallback.Unknown? ==> fate.Gone?)
  }

  /** The application as it is read, against what has become of it: shown as it is when both routes
      answered; otherwise as it is but for the mark of somebody else's, or as the key tells of it. */
  predicate ShownAsItIs(told: Application, app: Application, fate: Fate, answered: bool) {
    || (fate.Own? && app == fate.app)
    || (fate.Foreign? && app == fate.app.(external := true))
    || (fate.Gone? && app == Application(told.id, "", "", "", false, true))
    || (!answered && (app == told || (fate.Foreign? && app == fate.app)))
  }

  /** Only a deleted application makes a key read as dead, only somebody else's is marked external,
      and where both routes answer, each of them is. */
  lemma ApplicationsAreReadAsTheyAre(c: Credential, fate: Fate, route: Reading, fallback: Reading)
    requires Truthfully(c.application.id, fate, route, fallback) && ToldOf(c.application, c.application.id)
    ensures var app := ApplicationOf(c, route, fallback);
            && ShownAsItIs(c.application, app, fate, !route.Failing? && !fallback.Failing?)
            && app.id == c.application.id
            && (app.deleted ==> fate.Gone?) && (app.external ==> fate.Foreign?)
            && (route.Answered? || fallback.Answered? ==> app.(external := false) == fate.app)
  {
  }

  /** The keys applications are read through: the first one of each. */
  predicate Represents(cs: seq<Credential>, k: nat) {
    k < |cs| && cs[k].application.id != 0 && forall j :: 0 <= j < k ==> cs[j].application.id != cs[k].application.id
  }

  method Representatives(cs: seq<Credential>) returns (firsts: seq<nat>)
    ensures forall i :: 0 <= i < |firsts| ==> Represents(cs, firsts[i])
    ensures forall k: nat :: Represents(cs, k) ==> k in firsts
    ensures forall i, j :: 0 <= i < j < |firsts| ==> firsts[i] < firsts[j]
  {
    firsts := [];
    var seen: set<int> := {};
    for i := 0 to |cs|
      invariant forall app :: app in seen <==> app != 0 && exists j :: 0 <= j < i && cs[j].application.id == app
      invariant forall j :: 0 <= j < |firsts| ==> firsts[j] < i && Represents(cs, firsts[j])
      invariant forall k: nat :: k < i && Represents(cs, k) ==> k in firsts
      invariant forall j, k :: 0 <= j < k < |firsts| ==> firsts[j] < firsts[k]
    {
      var app := cs[i].application.id;
      assert Represents(cs, i) <==> app != 0 && app !in seen;
      if app != 0 && app !in seen {
        seen := seen + {app};
        firsts := firsts + [i];
      }
    }
  }

  /** Every key with the application read through the first key of the same one; a key that names
      none keeps what it has. */
  ghost predicate ResolvedThrough(cs: seq<Credential>, resolved: seq<Credential>, read: Credential -> Application) {
    && |resolved| == |cs|
    && (forall i :: 0 <= i < |cs| && cs[i].application.id == 0 ==> resolved[i] == cs[i])
    && (forall i, k: nat :: 0 <= i < |cs| && Represents(cs, k) && cs[k].application.id == cs[i].application.id
                            ==> resolved[i] == cs[i].(application := read(cs[k])))
  }

  method ResolveApplications(cs: seq<Credential>, read: Credential -> Application) returns (resolved: seq<Credential>)
    ensures ResolvedThrough(cs, resolved, read)
  {
    var firsts := Representatives(cs);
    var answers := Fetch(seq(|firsts|, i requires 0 <= i < |firsts| && firsts[i] < |cs| => read(cs[firsts[i]])));
    var known: map<int, Application> := map[];
    for i := 0 to |firsts|
      invariant forall app :: app in known ==> app != 0
      invariant forall j :: 0 <= j < i ==> cs[firsts[j]].application.id in known
      invariant forall j :: 0 <= j < i ==> known[cs[firsts[j]].application.id] == read(cs[firsts[j]])
    {
      assert Represents(cs, firsts[i]);
      known := known[cs[firsts[i]].application.id := answers[i]];
    }
    resolved := [];
    for i := 0 to |cs|
      invariant |resolved| == i
      invariant forall j :: 0 <= j < i ==> resolved[j] == Resolved(cs[j], known)
    {
      resolved := resolved + [Resolved(cs[i], known)];
    }
    forall i, k: nat | 0 <= i < |cs| && Represents(cs, k) && cs[k].application.id == cs[i].application.id
      ensures resolved[i] == cs[i].(application := read(cs[k]))
    {
      assert k in firsts;
    }
  }

  function Resolved(c: Credential, known: map<int, Application>): Credential {
    if c.application.id in known then c.(application := known[c.application.id]) else c
  }

  /** The first key of the same application. */
  ghost function Through(cs: seq<Credential>, i: nat): (k: nat)
    requires i < |cs| && cs[i].application.id != 0
    ensures Represents(cs, k) && cs[k].application.id == cs[i].application.id
    decreases i
  {
    if j :| 0 <= j < i && cs[j].application.id == cs[i].application.id then Through(cs, j) else i
  }

  /** A whole listing: keys keep everything but their application, those of one application show the
      same, and each shows it as it is, as far as the routes of its first key answered. */
  lemma ListingsShowApplicationsAsTheyAre(cs: seq<Credential>, resolved: seq<Credential>, fate: int -> Fate,
                                          route: Credential -> Reading, fallback: Credential -> Reading)
    requires ResolvedThrough(cs, resolved, c => ApplicationOf(c, route(c), fallback(c)))
    requires forall k: nat :: Represents(cs, k) ==> ReadTruthfully(cs[k], fate, route, fallback)
    ensures forall i :: 0 <= i < |cs| ==> resolved[i] == cs[i].(application := resolved[i].application)
    ensures forall i, j :: 0 <= i < |cs| && 0 <= j < |cs| && cs[i].application.id == cs[j].application.id != 0
                           ==> resolved[i].application == resolved[j].application
    ensures forall i :: 0 <= i < |cs| && cs[i].application.id != 0 ==>
              var first, id := cs[Through(cs, i)], cs[i].application.id;
              && ShownAsItIs(first.application, resolved[i].application, fate(id), BothAnswer(first, route, fallback))
              && resolved[i].application.id == id
              && (resolved[i].application.deleted ==> fate(id).Gone?)
              && (resolved[i].application.external ==> fate(id).Foreign?)
  {
    var read := c => ApplicationOf(c, route(c), fallback(c));
    assert ResolvedThrough(cs, resolved, read);
    forall i | 0 <= i < |cs| && cs[i].application.id != 0
      ensures resolved[i] == cs[i].(application := read(cs[Through(cs, i)]))
      ensures var first, id := cs[Through(cs, i)], cs[i].application.id;
              && ShownAsItIs(first.application, resolved[i].application, fate(id), BothAnswer(first, route, fallback))
              && resolved[i].application.id == id
              && (resolved[i].application.deleted ==> fate(id).Gone?)
              && (resolved[i].application.external ==> fate(id).Foreign?)
    {
      var first := cs[Through(cs, i)];
      assert resolved[i] == cs[i].(application := read(first));
      ApplicationsAreReadAsTheyAre(first, fate(first.application.id), route(first), fallback(first));
    }
    forall i, j | 0 <= i < |cs| && 0 <= j < |cs| && cs[i].application.id == cs[j].application.id != 0
      ensures resolved[i].application == resolved[j].application
    {
      OneRepresentative(cs, Through(cs, i), Through(cs, j));
    }
  }

  predicate ReadTruthfully(c: Credential, fate: int -> Fate, route: Credential -> Reading,
                           fallback: Credential -> Reading) {
    var id := c.application.id;
    ToldOf(c.application, id) && Truthfully(id, fate(id), route(c), fallback(c))
  }

  predicate BothAnswer(c: Credential, route: Credential -> Reading, fallback: Credential -> Reading) {
    !route(c).Failing? && !fallback(c).Failing?
  }

  lemma OneRepresentative(cs: seq<Credential>, k: nat, l: nat)
    requires Represents(cs, k) && Represents(cs, l) && cs[k].application.id == cs[l].application.id
    ensures k == l
  {
  }
}
