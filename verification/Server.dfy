/** The provider and the handlers that write to the account: single revocation, both sweeps, the
    deletion of applications and the address editor, over an API any call to which may fail
    (internal/legacy/provider.go, internal/httpapi). */
module Server {
  import opened Text
  import opened Net
  import opened Credentials
  import opened Accounts
  import opened Revocations
  import opened Listings
  import Fetching

  datatype Lookup = Disabled | Failed | Found(home: Addr)

  datatype Offer = Offered | IsSelf | MissingRule | InUse

  datatype Verdict = Accepted | Failing(fault: Fault) | Inactive | LookupOff | LookupFailed | Lockout(seenFrom: Addr)

  function ApplicationPath(id: int): string {
    "/me/api/application/" + Decimal(id)
  }

  function Unused(apps: seq<int>, cs: seq<Credential>): seq<int> {
    if apps == [] then []
    else Unused(apps[..|apps| - 1], cs) + (if Names(cs, apps[|apps| - 1]) then [] else [apps[|apps| - 1]])
  }

  function ApplicationErrorCode(fault: Fault): Kind {
    if ApplicationInUse in fault then ApplicationInUse
    else if NotFound in fault then NotFound
    else if PermissionDenied in fault then PermissionDenied
    else ApiFailure
  }

  ghost predicate MayDelete(current: Option<Credential>, app: int) {
    current.Some? ==> Permitted(current.value.rules, "DELETE", ApplicationPath(app))
  }

  /** What the offer lets the sweep over the applications send, decided by the one listing it reads. */
  ghost function DeletionsSent(current: Option<Credential>, read: nat, listing: seq<Credential>, unreadable: nat,
                           apps: seq<int>): seq<Write> {
    if apps == [] then []
    else DeletionsSent(current, read, listing, unreadable, apps[..|apps| - 1])
         + DeletionSent(current, read, listing, unreadable, apps[|apps| - 1])
  }

  ghost function DeletionSent(current: Option<Credential>, read: nat, listing: seq<Credential>, unreadable: nat,
                              app: int): seq<Write> {
    if MayDelete(current, app) then [DeleteApplication(read, listing, unreadable, app)] else []
  }

  predicate Acted(reply: Reply) {
    reply.Heard? || (reply.AnswerLost? && reply.acted)
  }

  /** The applications gone once those due had their turn. */
  ghost function GoneBy(apps: set<int>, current: Option<Credential>, due: seq<int>, replies: nat -> Reply): set<int> {
    set k: nat | k < |due| && GoesAt(apps, current, due[k], replies(k)) :: due[k]
  }

  ghost predicate GoesAt(apps: set<int>, current: Option<Credential>, app: int, reply: Reply) {
    app in apps && MayDelete(current, app) && Acted(reply)
  }

  /** The account without some applications, their keys stopped. */
  function Emptied(a: Account, gone: set<int>): Account {
    Account(seq(|a.credentials|, i requires 0 <= i < |a.credentials| => Stopped(a.credentials[i], gone)),
            a.applications - gone)
  }

  function Stopped(c: Credential, gone: set<int>): Credential {
    if c.application.id in gone then c.(application := c.application.(deleted := true)) else c
  }

  /** What an application is reported under, from its rule and the answer alone; none where it is gone. */
  ghost predicate ClearedByCause(code: Option<Kind>, current: Option<Credential>, app: int, there: bool, reply: Reply) {
    if current.Some? && !Permitted(current.value.rules, "DELETE", "/me/api/application/" + Decimal(app))
    then code == Some(PermissionDenied)
    else
      match reply
      case Heard => code == if there then None else Some(NotFound)
      case Forbidden => code == Some(PermissionDenied)
      case AnswerLost(_) => code == Some(ApiFailure)
  }

  /** One report for each application due, in order, following from the answers. */
  ghost predicate ReportsByCause(report: seq<Report>, apps: set<int>, current: Option<Credential>, due: seq<int>,
                                 replies: nat -> Reply) {
    && ReportsOn(report, due)
    && forall k :: 0 <= k < |report| ==>
         ClearedByCause(report[k].code, current, due[k], due[k] in apps - GoneBy(apps, current, due[..k], replies),
                        replies(k))
  }

  /** How far that sweep is. */
  ghost predicate Cleared(start: Account, sent: seq<Write>, a: Account, log: seq<Write>, current: Option<Credential>,
                          read: nat, listing: seq<Credential>, unreadable: nat, due: seq<int>, replies: nat -> Reply,
                          report: seq<Report>) {
    && a == Emptied(start, GoneBy(start.applications, current, due, replies))
    && log == sent + DeletionsSent(current, read, listing, unreadable, due)
    && ReportsByCause(report, start.applications, current, due, replies)
  }

  lemma NothingCleared(start: Account, sent: seq<Write>, current: Option<Credential>, read: nat,
                       listing: seq<Credential>, unreadable: nat, replies: nat -> Reply)
    ensures Cleared(start, sent, start, sent, current, read, listing, unreadable, [], replies, [])
  {
    assert GoneBy(start.applications, current, [], replies) == {};
    assert Emptied(start, {}).credentials == start.credentials;
  }

  /** One application more: gone when it was there, may be deleted and its deletion was carried out. */
  lemma OneMoreGoneBy(apps: set<int>, current: Option<Credential>, due: seq<int>, app: int, replies: nat -> Reply)
    ensures GoneBy(apps, current, due + [app], replies)
            == GoneBy(apps, current, due, replies)
               + if app in apps && MayDelete(current, app) && Acted(replies(|due|)) then {app} else {}
  {
    var more := due + [app];
    var before, after := GoneBy(apps, current, due, replies), GoneBy(apps, current, more, replies);
    assert more[|due|] == app;
    forall x | x in before ensures x in after {
      var k: nat :| k < |due| && due[k] == x && GoesAt(apps, current, due[k], replies(k));
      assert more[k] == x;
    }
    forall x | x in after ensures x in before || (x == app && GoesAt(apps, current, app, replies(|due|))) {
      var k: nat :| k < |more| && more[k] == x && GoesAt(apps, current, more[k], replies(k));
      assert k < |due| ==> due[k] == x;
    }
  }

  lemma OneMoreEmptied(start: Account, gone: set<int>, w: Write, reply: Reply)
    requires w.DeleteApplication? && gone <= start.applications
    ensures var o := Sent(Emptied(start, gone), w, reply);
            o.account == Emptied(start, gone + if w.app in start.applications && Acted(reply) then {w.app} else {})
  {
    var b := Emptied(start, gone);
    if w.app in b.applications && Acted(reply) {
      var more := Emptied(start, gone + {w.app});
      assert After(b, w).credentials == more.credentials;
      assert After(b, w).applications == more.applications;
    } else {
      assert w.app in start.applications && Acted(reply) ==> gone + {w.app} == gone;
      assert gone + {} == gone;
    }
  }

  lemma DeletionIsReported(a: Account, w: Write, current: Option<Credential>, reply: Reply)
    requires w.DeleteApplication? && MayDelete(current, w.app)
    ensures var fault := Sent(a, w, reply).fault;
            ClearedByCause(if fault == {} then None else Some(ApplicationErrorCode(fault)), current, w.app,
                           w.app in a.applications, reply)
  {
  }

  lemma OneMoreReported(report: seq<Report>, apps: set<int>, current: Option<Credential>, due: seq<int>,
                        replies: nat -> Reply, one: Report)
    requires ReportsByCause(report, apps, current, due, replies)
    requires ClearedByCause(one.code, current, one.id, one.id in apps - GoneBy(apps, current, due, replies),
                            replies(|due|))
    ensures ReportsByCause(report + [one], apps, current, due + [one.id], replies)
  {
    var more, reports := due + [one.id], report + [one];
    forall k | 0 <= k < |reports|
      ensures ClearedByCause(reports[k].code, current, more[k],
                             more[k] in apps - GoneBy(apps, current, more[..k], replies), replies(k))
    {
      if k < |due| {
        assert more[..k] == due[..k] && more[k] == due[k] && reports[k] == report[k];
      } else {
        assert more[..k] == due;
      }
    }
  }

  /** A sweep goes on by one application: refused by the offer, or what its deletion comes to. */
  lemma OneMoreCleared(start: Account, sent: seq<Write>, b: Account, before: seq<Write>, a: Account, log: seq<Write>,
                       current: Option<Credential>, read: nat, listing: seq<Credential>, unreadable: nat, due: seq<int>,
                       replies: nat -> Reply, report: seq<Report>, one: Report)
    requires Cleared(start, sent, b, before, current, read, listing, unreadable, due, replies, report)
    requires a == if MayDelete(current, one.id)
                  then Sent(b, DeleteApplication(read, listing, unreadable, one.id), replies(|due|)).account
                  else b
    requires log == before + DeletionSent(current, read, listing, unreadable, one.id)
    requires ClearedByCause(one.code, current, one.id, one.id in b.applications, replies(|due|))
    ensures Cleared(start, sent, a, log, current, read, listing, unreadable, due + [one.id], replies, report + [one])
  {
    AccountGoesOn(start, b, current, due, replies, DeleteApplication(read, listing, unreadable, one.id));
    LogGoesOn(sent, current, read, listing, unreadable, due, one.id);
    OneMoreReported(report, start.applications, current, due, replies, one);
  }

  lemma AccountGoesOn(start: Account, b: Account, current: Option<Credential>, due: seq<int>, replies: nat -> Reply,
                      w: Write)
    requires b == Emptied(start, GoneBy(start.applications, current, due, replies)) && w.DeleteApplication?
    ensures (if MayDelete(current, w.app) then Sent(b, w, replies(|due|)).account else b)
            == Emptied(start, GoneBy(start.applications, current, due + [w.app], replies))
  {
    var gone := GoneBy(start.applications, current, due, replies);
    OneMoreGoneBy(start.applications, current, due, w.app, replies);
    if MayDelete(current, w.app) {
      OneMoreEmptied(start, gone, w, replies(|due|));
    } else {
      assert gone + {} == gone;
    }
  }

  lemma LogGoesOn(sent: seq<Write>, current: Option<Credential>, read: nat, listing: seq<Credential>, unreadable: nat,
                  due: seq<int>, app: int)
    ensures sent + DeletionsSent(current, read, listing, unreadable, due)
            + DeletionSent(current, read, listing, unreadable, app)
            == sent + DeletionsSent(current, read, listing, unreadable, due + [app])
  {
    OneDeletionMore(current, read, listing, unreadable, due, app);
    Regrouped(sent, DeletionsSent(current, read, listing, unreadable, due),
              DeletionSent(current, read, listing, unreadable, app));
  }

  /** What is reported without a code is gone, and nothing is but what was due. */
  lemma ClearedAreGone(a: Account, current: Option<Credential>, due: seq<int>, replies: nat -> Reply,
                       report: seq<Report>)
    requires ReportsByCause(report, a.applications, current, due, replies)
    ensures var gone := GoneBy(a.applications, current, due, replies);
            && (forall r :: r in report && r.code.None? ==> r.id in gone)
            && (forall app :: app in gone ==> app in due)
  {
    var gone := GoneBy(a.applications, current, due, replies);
    forall r | r in report && r.code.None? ensures r.id in gone {
      var k :| 0 <= k < |report| && report[k] == r;
      assert report[k].id == due[k];
      assert ClearedByCause(report[k].code, current, due[k],
                            due[k] in a.applications - GoneBy(a.applications, current, due[..k], replies), replies(k));
    }
  }

  /** A complete listing decides: what it leaves due is named by no key of the account. */
  lemma OnlyUnnamedAreDue(a: Account, current: Option<Credential>, listing: seq<Credential>, apps: seq<int>,
                          replies: nat -> Reply)
    requires Partial(listing, a.credentials, 0)
    ensures var gone := GoneBy(a.applications, current, Unused(apps, listing), replies);
            Emptied(a, gone).credentials == a.credentials
  {
    CompleteListing(listing, a.credentials);
    var due := Unused(apps, listing);
    var gone := GoneBy(a.applications, current, due, replies);
    forall app | app in gone ensures !Names(a.credentials, app) {
      assert app in due;
      UnusedAre(apps, listing, app);
    }
    UnnamedAreUntouched(a, gone);
  }

  /** Where no key names what is gone, no key is touched. */
  lemma UnnamedAreUntouched(a: Account, gone: set<int>)
    requires forall app :: app in gone ==> !Names(a.credentials, app)
    ensures Emptied(a, gone).credentials == a.credentials
  {
  }

  lemma OneDeletionMore(current: Option<Credential>, read: nat, listing: seq<Credential>, unreadable: nat,
                        apps: seq<int>, app: int)
    ensures DeletionsSent(current, read, listing, unreadable, apps + [app])
            == DeletionsSent(current, read, listing, unreadable, apps)
               + DeletionSent(current, read, listing, unreadable, app)
  {
    assert (apps + [app])[..|apps|] == apps;
  }

  /** Every report of a sweep follows from the answers, and with the key in use known is true. */
  lemma SweepIsReported(a: Account, own: int, current: Option<Credential>, ids: seq<int>, turns: nat -> Turn)
    requires current.Some? ==> current.value.id == own
    ensures var p := Swept(a, own, current, ids, turns);
            && OnlyThoseGone(a, p.account, own, ids) && ReportsOn(p.report, ids)
            && (current.Some? ==> ReportsTheGone(p.report, p.account))
            && forall k :: 0 <= k < |p.report| ==>
                 ReportedByCause(p.report[k].code, Listed(a.credentials, own), own, current, p.report[k].id, turns(k))
  {
    SweepKeepsOthers(a, own, current, ids, turns);
    if current.Some? {
      KnownSweepIsTrue(a, own, current.value, ids, turns);
    }
    forall k | 0 <= k < |ids|
      ensures ReportedByCause(Swept(a, own, current, ids, turns).report[k].code, Listed(a.credentials, own), own,
                              current, ids[k], turns(k))
    {
      SweepReportsByCause(a, own, current, ids, turns, k);
    }
  }

  /** A call came to this: the account it leaves, its errors, and its writes behind those before. */
  ghost predicate Comes(o: Outcome, account: Account, fault: Fault, before: seq<Write>, log: seq<Write>) {
    account == o.account && fault == o.fault && log == before + o.sent
  }

  /** The writes among the steps of an account. */
  function Writes(steps: seq<Step>): seq<Write> {
    if steps == [] then []
    else
      var last := steps[|steps| - 1];
      Writes(steps[..|steps| - 1]) + if last.Ours? then [last.write] else []
  }

  lemma WritesGrow(steps: seq<Step>, s: Step)
    ensures Writes(steps + [s]) == Writes(steps) + if s.Ours? then [s.write] else []
  {
    assert (steps + [s])[..|steps|] == steps;
  }

  /** A run goes on by a guarded write, carried out or not, or by anything done elsewhere. */
  lemma RunGrows(history: seq<Account>, steps: seq<Step>, own: int, home: Addr, a: Account, s: Step)
    requires Run(history, steps, own, home)
    requires s.Ours? ==>
               && Guarded(s.write, own, home) && (a == history[|steps|] || a == After(history[|steps|], s.write))
               && (s.write.DeleteApplication? ==>
                     s.write.read < |history|
                     && Partial(s.write.listing, history[s.write.read].credentials, s.write.unreadable))
    ensures Run(history + [a], steps + [s], own, home)
  {
    var more, longer := steps + [s], history + [a];
    forall i | 0 <= i < |more| && more[i].Ours? ensures OurStep(longer, i, more[i].write, own, home) {
      if i < |steps| {
        assert OurStep(history, i, steps[i].write, own, home);
      }
    }
  }

  // The address editor

  /** The key in use is told, and the key to edit is it or can be read. */
  ghost predicate TargetIsRead(a: Account, own: int, id: int, identity: Identity, query: Query) {
    && identity.Told? && Listed(a.credentials, own)
    && (id == own || (query.Given? && Listed(a.credentials, id)))
  }

  ghost predicate TargetIsUsable(a: Account, own: int, id: int, identity: Identity, query: Query) {
    TargetIsRead(a, own, id, identity, query)
    && exists i :: 0 <= i < |a.credentials| && a.credentials[i].id == id
                   && a.credentials[i].status.Validated? && !a.credentials[i].application.deleted
                   && forall j :: 0 <= j < i ==> a.credentials[j].id != id
  }

  /** Restricting the key in use calls for the address the tool is seen from, and for letting it in. */
  predicate KeepsTheToolIn(own: int, home: Addr, id: int, allowed: seq<Prefix>, lookup: Lookup) {
    id == own && allowed != [] ==> lookup.Found? && Covers(allowed, home)
  }

  ghost predicate SendsAddresses(a: Account, own: int, home: Addr, id: int, allowed: seq<Prefix>, identity: Identity,
                                 query: Query, lookup: Lookup, apply: bool) {
    && apply && TargetIsUsable(a, own, id, identity, query)
    && KeepsTheToolIn(own, home, id, allowed, lookup)
  }

  /** The verdict, from the account and the answers: each is given exactly on its grounds. */
  ghost predicate EditedByCause(a: Account, own: int, home: Addr, id: int, allowed: seq<Prefix>, identity: Identity,
                                query: Query, lookup: Lookup, apply: bool, reply: Reply, verdict: Verdict) {
    var read := TargetIsRead(a, own, id, identity, query);
    var usable := TargetIsUsable(a, own, id, identity, query);
    var restricts := id == own && allowed != [];
    var safe := KeepsTheToolIn(own, home, id, allowed, lookup);
    && (verdict == Accepted <==> usable && safe && (apply ==> reply.Heard?))
    && (verdict == Inactive <==> read && !usable)
    && (verdict == LookupOff <==> usable && restricts && lookup.Disabled?)
    && (verdict == LookupFailed <==> usable && restricts && lookup.Failed?)
    && (verdict.Lockout? <==> usable && restricts && lookup.Found? && !Covers(allowed, home))
    && (verdict.Lockout? ==> verdict.seenFrom == home)
    && (verdict.Failing? <==> !read || (usable && safe && apply && !reply.Heard?))
    && (verdict.Failing? ==>
          verdict.fault ==
          if read then {if reply.Forbidden? then PermissionDenied else ApiFailure}
          else UnreadFault(a, own, identity, query))
  }

  /** Why the key to edit could not be read: the key in use was not told, or it was and that key was not. */
  ghost function UnreadFault(a: Account, own: int, identity: Identity, query: Query): Fault {
    if !(identity.Told? && Listed(a.credentials, own)) then
      {IdentityUnavailable, match identity
                            case Withheld => PermissionDenied
                            case Broken => ApiFailure
                            case _ => NotFound}
    else
      {match query
       case Given => NotFound
       case Denied => PermissionDenied
       case Down => ApiFailure}
  }

  /** What speaks against the new addresses of a key, in the order it is looked for. */
  function Refusal(target: Credential, own: int, home: Addr, allowed: seq<Prefix>, lookup: Lookup): Option<Verdict> {
    var restricts := target.id == own && allowed != [];
    if !target.status.Validated? || target.application.deleted then Some(Inactive)
    else if restricts && lookup.Disabled? then Some(LookupOff)
    else if restricts && lookup.Failed? then Some(LookupFailed)
    else if restricts && !Covers(allowed, home) then Some(Lockout(home))
    else None
  }

  lemma VerdictFollows(a: Account, own: int, home: Addr, id: int, allowed: seq<Prefix>, identity: Identity,
                       query: Query, lookup: Lookup, apply: bool, reply: Reply, target: Credential)
    requires TargetIsRead(a, own, id, identity, query) && target.id == id
    requires TargetIsUsable(a, own, id, identity, query) <==> target.status.Validated? && !target.application.deleted
    ensures var refusal := Refusal(target, own, home, allowed, lookup);
            var fault := {if reply.Forbidden? then PermissionDenied else ApiFailure};
            && EditedByCause(a, own, home, id, allowed, identity, query, lookup, apply, reply,
                             if refusal.Some? then refusal.value
                             else if !apply || reply.Heard? then Accepted else Failing(fault))
            && (SendsAddresses(a, own, home, id, allowed, identity, query, lookup, apply) <==> refusal.None? && apply)
  {
  }

  lemma UsableTarget(a: Account, own: int, id: int, identity: Identity, query: Query, target: Credential)
    requires TargetIsRead(a, own, id, identity, query) && KeyWith(a.credentials, id) == Some(target)
    ensures TargetIsUsable(a, own, id, identity, query) <==> target.status.Validated? && !target.application.deleted
    ensures target.id == id && Listed(a.credentials, id)
  {
  }

  class Session {
    /** The key the tool authenticates with, and the address it is seen from. */
    const own: int
    const home: Addr

    var account: Account

    /** Every state the account went through and every write sent, for the record. */
    var history: seq<Account>
    var log: seq<Write>

    /** The writes among what was done elsewhere. */
    ghost var steps: seq<Step>

    /** What happened so far is a run of guarded writes, among whatever was done elsewhere. */
    ghost predicate Valid()
      reads this
    {
      Run(history, steps, own, home) && history[|steps|] == account && log == Writes(steps)
    }

    constructor (own: int, home: Addr, account: Account)
      ensures Valid() && this.own == own && this.home == home && this.account == account
      ensures history == [account] && log == [] && steps == []
    {
      this.own, this.home, this.account := own, home, account;
      history, log, steps := [account], [], [];
    }

    /** Anyone else may change the account between two calls, and issue keys on it. */
    method ChangeElsewhere(a: Account)
      requires Valid()
      modifies this
      ensures Valid() && account == a && log == old(log)
      ensures history == old(history) + [a] && steps == old(steps) + [Elsewhere]
    {
      account := a;
      RunGrows(history, steps, own, home, a, Elsewhere);
      WritesGrow(steps, Elsewhere);
      history, steps := history + [a], steps + [Elsewhere];
    }

    // Calls to the API

    method Get(id: int, query: Query) returns (found: Option<Credential>, fault: Fault)
      ensures found == if query.Given? then KeyWith(account.credentials, id) else None
      ensures match query
              case Given => fault == if Listed(account.credentials, id) then {} else {NotFound}
              case Denied => fault == {PermissionDenied}
              case Down => fault == {ApiFailure}
    {
      match query {
        case Denied => return None, {PermissionDenied};
        case Down => return None, {ApiFailure};
        case Given =>
          for i := 0 to |account.credentials|
            invariant forall j :: 0 <= j < i ==> account.credentials[j].id != id
          {
            if account.credentials[i].id == id {
              KeyWithIs(account.credentials, id, i);
              return Some(account.credentials[i]), {};
            }
          }
          return None, {NotFound};
      }
    }

    method Identify(identity: Identity) returns (current: Option<Credential>, fault: Fault)
      ensures fault == IdentityFault(account, own, identity)
      ensures current == CurrentOf(account, own, identity)
    {
      match identity {
        case Told =>
          for i := 0 to |account.credentials|
            invariant forall j :: 0 <= j < i ==> account.credentials[j].id != own
          {
            if account.credentials[i].id == own {
              KeyWithIs(account.credentials, own, i);
              return Some(account.credentials[i]), {};
            }
          }
          return None, {NotFound};
        case Unknown => return None, {NotFound};
        case Withheld => return None, {PermissionDenied};
        case Broken => return None, {ApiFailure};
      }
    }

    /** A listing, possibly short of keys it could not read, though not of all there are. */
    method List(asking: Asking) returns (listing: seq<Credential>, unreadable: nat, fault: Fault)
      ensures Listing(listing, unreadable, fault) == ListingOf(account, asking)
      ensures fault == {} ==> Partial(listing, account.credentials, unreadable)
      ensures forall c :: c in listing ==> c in account.credentials
      ensures fault != {} ==> listing == [] && unreadable == 0 && fault <= {PermissionDenied, ApiFailure}
    {
      ListingExactly(account, asking);
      match asking.ids {
        case Denied => return [], 0, {PermissionDenied};
        case Down => return [], 0, {ApiFailure};
        case Given =>
          var outcome := Fetching.FetchAll(Details(account.credentials, asking.details));
          match outcome {
            case Complete(keys) => return keys, 0, {};
            case Short(keys, short) => return keys, short, {};
            case Unusable(refused) => return [], 0, {if refused then PermissionDenied else ApiFailure};
          }
      }
    }

    /** A write, with the answer it gets. */
    method Send(w: Write, reply: Reply) returns (fault: Fault)
      requires Valid() && Guarded(w, own, home)
      requires w.DeleteApplication? ==>
                 w.read < |history| && Partial(w.listing, history[w.read].credentials, w.unreadable)
      modifies this
      ensures Valid() && log == old(log) + [w] && history == old(history) + [account] && steps == old(steps) + [Ours(w)]
      ensures Outcome(account, fault, [w]) == Sent(old(account), w, reply)
    {
      match reply {
        case Forbidden => fault := {PermissionDenied};
        case Heard =>
          if Targets(account, w) {
            account := After(account, w);
            fault := {};
          } else {
            fault := {NotFound};
          }
        case AnswerLost(acted) =>
          if acted && Targets(account, w) {
            account := After(account, w);
          }
          fault := {ApiFailure};
      }
      RunGrows(history, steps, own, home, account, Ours(w));
      WritesGrow(steps, Ours(w));
      history, log, steps := history + [account], log + [w], steps + [Ours(w)];
    }

    // The provider

    method RevokeAgainst(identity: int, id: int, reply: Reply) returns (fault: Fault)
      requires Valid() && identity == own
      modifies this
      ensures Valid() && Comes(RevokedAgainst(old(account), own, id, reply), account, fault, old(log), log)
    {
      if identity == id {
        return {SelfRevocation};
      }
      fault := Send(DeleteKey(identity, id), reply);
    }

    /** The identity is read again for every call, and nothing is sent without it. */
    method Revoke(id: int, turn: Turn) returns (fault: Fault)
      requires Valid()
      modifies this
      ensures Valid() && Comes(Revoked(old(account), own, id, turn), account, fault, old(log), log)
    {
      var current, identity := Identify(turn.identity);
      if current.None? {
        return identity + {IdentityUnavailable};
      }
      fault := RevokeAgainst(current.value.id, id, turn.reply);
    }

    method DeleteApplicationAgainst(read: nat, listing: seq<Credential>, unreadable: nat, app: int, reply: Reply)
      returns (fault: Fault)
      requires Valid() && read < |history| && Partial(listing, history[read].credentials, unreadable)
      modifies this
      ensures Valid() && old(history) <= history
      ensures Comes(if Names(listing, app) then Outcome(old(account), {ApplicationInUse}, [])
                    else Sent(old(account), DeleteApplication(read, listing, unreadable, app), reply),
                    account, fault, old(log), log)
    {
      for i := 0 to |listing|
        invariant forall j :: 0 <= j < i ==> listing[j].application.id != app
      {
        if listing[i].application.id == app {
          return {ApplicationInUse};
        }
      }
      fault := Send(DeleteApplication(read, listing, unreadable, app), reply);
    }

    /** The keys are listed at the moment of the call, and nothing is sent without a listing. */
    method DeleteApplicationNow(app: int, asking: Asking, reply: Reply) returns (fault: Fault)
      requires Valid()
      modifies this
      ensures Valid()
      ensures var read := ListingOf(old(account), asking);
              Comes(if read.fault != {} then Outcome(old(account), read.fault, [])
                    else if Names(read.keys, app) then Outcome(old(account), {ApplicationInUse}, [])
                    else Sent(old(account), DeleteApplication(|old(history)| - 1, read.keys, read.unreadable, app),
                              reply),
                    account, fault, old(log), log)
      ensures ApplicationInUse in fault ==> Names(old(account).credentials, app)
    {
      var listing, unreadable, unlisted := List(asking);
      if unlisted != {} {
        return unlisted;
      }
      PartialNames(listing, account.credentials, unreadable, app);
      fault := DeleteApplicationAgainst(|history| - 1, listing, unreadable, app, reply);
    }

    // The handlers

    method RevocationOffer(current: Option<Credential>, target: Credential) returns (offer: Offer)
      ensures offer == IsSelf <==> current.Some? && current.value.id == target.id
      ensures offer == MissingRule <==> current.Some? && current.value.id != target.id
                                        && !Permitted(current.value.rules, "DELETE",
                                                      "/me/api/credential/" + Decimal(target.id))
      ensures offer != InUse
    {
      if current.None? {
        return Offered;
      }
      if current.value.id == target.id {
        return IsSelf;
      }
      var permitted := Permits(current.value, "DELETE", CredentialPath(target.id));
      return if permitted then Offered else MissingRule;
    }

    /** The single handler. */
    method RevokeOnRequest(id: int, turn: Turn) returns (answer: Answer)
      requires Valid()
      modifies this
      ensures Valid()
      ensures var o := Revoked(old(account), own, id, turn);
              account == o.account && log == old(log) + o.sent && answer == AnswerTo(o.fault)
      ensures (SaysGone(answer) ==> !Listed(account.credentials, id))
              <==>
              !(NotFound in IdentityFault(old(account), own, turn.identity) && Listed(old(account).credentials, id))
    {
      var fault := Revoke(id, turn);
      SingleAnswerIsTrue(old(account), own, id, turn);
      if fault == {} {
        return Done;
      } else if NotFound in fault {
        return AlreadyRevoked;
      } else if IdentityUnavailable in fault {
        return IdentityUnknown;
      } else if SelfRevocation in fault {
        return RefusedItself;
      }
      return if PermissionDenied in fault then NotAllowed else Answer.Failed;
    }

    /** One key of the sweep: identified once when it could be, read again otherwise. */
    method RevokeOne(current: Option<Credential>, id: int, turn: Turn) returns (fault: Fault)
      requires Valid() && (current.Some? ==> current.value.id == own)
      modifies this
      ensures Valid()
      ensures Comes(if current.None? then Revoked(old(account), own, id, turn)
                    else RevokedAgainst(old(account), own, id, turn.reply), account, fault, old(log), log)
    {
      if current.None? {
        fault := Revoke(id, turn);
      } else {
        fault := RevokeAgainst(current.value.id, id, turn.reply);
      }
    }

    /** One inactive key of the sweep: refused by the offer, refused by the API, or counted as revoked. */
    method SweepOne(current: Option<Credential>, target: Credential, turn: Turn) returns (code: Option<Kind>)
      requires Valid() && (current.Some? ==> current.value.id == own)
      modifies this
      ensures Valid()
      ensures var o := SweptOne(old(account), own, current, target.id, turn);
              account == o.account && code == CodeOf(o.fault) && log == old(log) + o.sent
    {
      var offer := RevocationOffer(current, target);
      if offer != Offered {
        return Some(if offer == IsSelf then SelfRevocation else PermissionDenied);
      }
      var fault := RevokeOne(current, target.id, turn);
      if NotFound !in fault && fault != {} {
        return Some(RevocationCode(fault));
      }
      return None;
    }

    /** The sweep over the expired and refused keys. */
    method RevokeInactive(identity: Identity, asking: Asking, turns: nat -> Turn)
      returns (report: seq<Report>, fault: Fault)
      requires Valid()
      modifies this
      ensures Valid()
      ensures var read := ListingOf(old(account), asking);
              var current := CurrentOf(old(account), own, identity);
              var p := Swept(old(account), own, current, InactiveIds(read.keys), turns);
              && fault == read.fault && account == p.account && report == p.report && log == old(log) + p.sent
              && OnlyThoseGone(old(account), account, own, InactiveIds(read.keys))
              && ReportsOn(report, InactiveIds(read.keys))
              && (current.Some? ==> ReportsTheGone(report, account))
              && forall k :: 0 <= k < |report| ==>
                   ReportedByCause(report[k].code, Listed(old(account).credentials, own), own, current, report[k].id,
                                   turns(k))
    {
      report := [];
      var current, unknown := Identify(identity);
      var listing, unreadable;
      listing, unreadable, fault := List(asking);
      ghost var ids := InactiveIds(listing);
      SweepIsReported(account, own, current, ids, turns);
      if fault != {} {
        return;
      }
      report := SweepListing(current, listing, turns);
    }

    method SweepListing(current: Option<Credential>, listing: seq<Credential>, turns: nat -> Turn)
      returns (report: seq<Report>)
      requires Valid() && (current.Some? ==> current.value.id == own)
      modifies this
      ensures Valid()
      ensures var p := Swept(old(account), own, current, InactiveIds(listing), turns);
              account == p.account && report == p.report && log == old(log) + p.sent
    {
      report := [];
      ghost var due: seq<int>, sent: seq<Write> := [], [];
      assert listing[..0] == [];
      for i := 0 to |listing|
        invariant due == InactiveIds(listing[..i]) && |report| == |due|
        invariant Valid() && log == old(log) + sent
        invariant Swept(old(account), own, current, due, turns) == Progress(account, report, sent)
      {
        assert listing[..i + 1][..i] == listing[..i];
        if !IsInactive(listing[i].status) {
          continue;
        }
        ghost var p := Progress(account, report, sent);
        var code := SweepOne(current, listing[i], turns(|report|));
        var one := Report(listing[i].id, code);
        sent := OneMoreSwept(old(account), own, current, due, turns, p, one, account, old(log), log);
        due, report := due + [one.id], report + [one];
      }
      assert listing[..|listing|] == listing;
    }

    method DeletionOffer(current: Option<Credential>, app: int, keys: nat) returns (offer: Offer)
      ensures offer == InUse <==> keys > 0
      ensures offer == MissingRule <==> keys == 0 && current.Some?
                                        && !Permitted(current.value.rules, "DELETE",
                                                      "/me/api/application/" + Decimal(app))
      ensures offer != IsSelf
    {
      if keys > 0 {
        return InUse;
      }
      if current.None? {
        return Offered;
      }
      var permitted := Permits(current.value, "DELETE", ApplicationPath(app));
      return if permitted then Offered else MissingRule;
    }

    method DeleteOne(current: Option<Credential>, read: nat, listing: seq<Credential>, unreadable: nat, app: int,
                     reply: Reply)
      returns (code: Option<Kind>)
      requires Valid() && read < |history| && Partial(listing, history[read].credentials, unreadable)
      requires !Names(listing, app)
      modifies this
      ensures Valid() && old(history) <= history
      ensures account == if MayDelete(current, app)
                         then Sent(old(account), DeleteApplication(read, listing, unreadable, app), reply).account
                         else old(account)
      ensures log == old(log) + DeletionSent(current, read, listing, unreadable, app)
      ensures ClearedByCause(code, current, app, app in old(account).applications, reply)
    {
      var offer := DeletionOffer(current, app, 0);
      if offer != Offered {
        return Some(PermissionDenied);
      }
      var fault := DeleteApplicationAgainst(read, listing, unreadable, app, reply);
      DeletionIsReported(old(account), DeleteApplication(read, listing, unreadable, app), current, reply);
      return if fault == {} then None else Some(ApplicationErrorCode(fault));
    }

    /** The sweep over the applications no listed key names. */
    method DeleteKeyless(identity: Identity, shown: Query, apps: seq<int>, asking: Asking, replies: nat -> Reply)
      returns (report: seq<Report>, fault: Fault)
      requires Valid()
      modifies this
      ensures Valid()
      ensures var read, current := ListingOf(old(account), asking), CurrentOf(old(account), own, identity);
              var due := if shown.Given? && read.fault == {} then Unused(apps, read.keys) else [];
              && fault == (match shown
                           case Given => read.fault
                           case Denied => {PermissionDenied}
                           case Down => {ApiFailure})
              && Cleared(old(account), old(log), account, log, current, |old(history)| - 1, read.keys, read.unreadable,
                         due, replies, report)
              && (forall r :: r in report && r.code.None? ==> r.id !in account.applications)
              && (forall app :: app in old(account).applications && app !in due ==> app in account.applications)
              && (read.unreadable == 0 ==> account.credentials == old(account).credentials)
    {
      report := [];
      ghost var read, current := ListingOf(account, asking), CurrentOf(account, own, identity);
      NothingCleared(account, log, current, |history| - 1, read.keys, read.unreadable, replies);
      match shown {
        case Denied => return [], {PermissionDenied};
        case Down => return [], {ApiFailure};
        case Given =>
      }
      var listing, unreadable;
      listing, unreadable, fault := List(asking);
      if fault != {} {
        return;
      }
      var used := CountUses(listing);
      var found, unknown := Identify(identity);
      ghost var due := Unused(apps, listing);
      report := DeleteUnused(found, |history| - 1, listing, unreadable, apps, used, replies);
      ClearedAreGone(old(account), current, due, replies, report);
      if unreadable == 0 {
        OnlyUnnamedAreDue(old(account), current, listing, apps, replies);
      }
    }

    /** One application of the sweep, wherever the sweep is. */
    method ClearOne(ghost start: Account, ghost sent: seq<Write>, current: Option<Credential>, read: nat,
                    listing: seq<Credential>, unreadable: nat, ghost due: seq<int>, replies: nat -> Reply,
                    report: seq<Report>, app: int)
      returns (one: Report)
      requires Valid() && read < |history| && Partial(listing, history[read].credentials, unreadable)
      requires !Names(listing, app) && |report| == |due|
      requires Cleared(start, sent, account, log, current, read, listing, unreadable, due, replies, report)
      modifies this
      ensures Valid() && old(history) <= history
      ensures Cleared(start, sent, account, log, current, read, listing, unreadable, due + [app], replies,
                      report + [one])
    {
      var code := DeleteOne(current, read, listing, unreadable, app, replies(|report|));
      one := Report(app, code);
      OneMoreCleared(start, sent, old(account), old(log), account, log, current, read, listing, unreadable,
                     due, replies, report, one);
    }

    method DeleteUnused(current: Option<Credential>, read: nat, listing: seq<Credential>, unreadable: nat,
                        apps: seq<int>, used: map<int, nat>, replies: nat -> Reply)
      returns (report: seq<Report>)
      requires Valid() && read < |history| && Partial(listing, history[read].credentials, unreadable)
      requires TellsNamed(listing, used)
      modifies this
      ensures Valid()
      ensures Cleared(old(account), old(log), account, log, current, read, listing, unreadable, Unused(apps, listing),
                      replies, report)
    {
      report := [];
      ghost var due: seq<int> := [];
      assert apps[..0] == [];
      NothingCleared(account, log, current, read, listing, unreadable, replies);
      for i := 0 to |apps|
        invariant due == Unused(apps[..i], listing)
        invariant Valid() && old(history) <= history && |report| == |due|
        invariant Cleared(old(account), old(log), account, log, current, read, listing, unreadable, due, replies,
                          report)
      {
        var app := apps[i];
        UnusedUpTo(apps, i, listing);
        assert Names(listing, app) <==> app in used && used[app] > 0;
        if app in used && used[app] > 0 {
          continue;
        }
        var one := ClearOne(old(account), old(log), current, read, listing, unreadable, due, replies, report, app);
        due := due + [app];
        report := report + [one];
      }
      assert apps[..|apps|] == apps;
    }

    /** The address editor: every check, in its order, and the write only when asked for. */
    method EditAddresses(id: int, allowed: seq<Prefix>, identity: Identity, query: Query, lookup: Lookup, apply: bool,
                         reply: Reply)
      returns (verdict: Verdict)
      requires Valid() && (lookup.Found? ==> lookup.home == home)
      modifies this
      ensures Valid()
      ensures var w := SetAddresses(own, id, allowed);
              EditedByCause(old(account), own, home, id, allowed, identity, query, lookup, apply, reply, verdict)
              && if SendsAddresses(old(account), own, home, id, allowed, identity, query, lookup, apply)
                 then log == old(log) + [w] && account == Sent(old(account), w, reply).account
                 else log == old(log) && account == old(account)
    {
      var target, unread := ReadTarget(id, identity, query);
      if target.None? {
        return Failing(unread);
      }
      UsableTarget(account, own, id, identity, query, target.value);
      var refusal := CheckTarget(target.value, allowed, lookup);
      VerdictFollows(account, own, home, id, allowed, identity, query, lookup, apply, reply, target.value);
      if refusal.Some? {
        return refusal.value;
      }
      if !apply {
        return Accepted;
      }
      var fault := Send(SetAddresses(own, id, allowed), reply);
      return if fault == {} then Accepted else Failing(fault);
    }

    method ReadTarget(id: int, identity: Identity, query: Query) returns (target: Option<Credential>, fault: Fault)
      ensures target == if TargetIsRead(account, own, id, identity, query) then KeyWith(account.credentials, id)
                        else None
      ensures target.None? ==> fault == UnreadFault(account, own, identity, query)
    {
      var current, unknown := Identify(identity);
      if current.None? {
        return None, unknown + {IdentityUnavailable};
      }
      if id == current.value.id {
        return current, {};
      }
      target, fault := Get(id, query);
    }

    method CheckTarget(target: Credential, allowed: seq<Prefix>, lookup: Lookup) returns (refusal: Option<Verdict>)
      requires lookup.Found? ==> lookup.home == home
      ensures refusal == Refusal(target, own, home, allowed, lookup)
    {
      if !target.status.Validated? || target.application.deleted {
        return Some(Inactive);
      }
      if target.id == own && |allowed| > 0 {
        match lookup {
          case Disabled => return Some(LookupOff);
          case Failed => return Some(LookupFailed);
          case Found(seenFrom) =>
            if !Covers(allowed, seenFrom) {
              return Some(Lockout(seenFrom));
            }
        }
      }
      return None;
    }

    /** Whatever was called, in whatever order, and whatever was done elsewhere short of ending it: on
        complete listings the tool keeps its own key. */
    lemma KeepsItsOwnKey(app: int)
      requires Valid() && CompleteListings(steps) && Spared(history, steps, own, home, app)
      requires Alive(history[0], own, home, app)
      ensures Alive(account, own, home, app)
    {
      RunKeepsAlive(history, steps, own, home, app, |steps|);
    }
  }

  lemma {:induction false} PartialNames(listing: seq<Credential>, cs: seq<Credential>, unreadable: nat, app: int)
    requires Partial(listing, cs, unreadable)
    ensures Names(listing, app) ==> Names(cs, app)
  {
    if Names(listing, app) {
      var i :| 0 <= i < |listing| && listing[i].application.id == app;
      if listing[0] == cs[0] && Partial(listing[1..], cs[1..], unreadable) {
        if i > 0 {
          assert listing[1..][i - 1] == listing[i];
          PartialNames(listing[1..], cs[1..], unreadable, app);
        }
      } else {
        PartialNames(listing, cs[1..], unreadable - 1, app);
      }
      if Names(cs[1..], app) {
        var j :| 0 <= j < |cs[1..]| && cs[1..][j].application.id == app;
        assert cs[j + 1].application.id == app;
      }
    }
  }

  /** The places of the keys that name an application. */
  ghost function Naming(cs: seq<Credential>, app: int): set<int> {
    set i | 0 <= i < |cs| && cs[i].application.id == app
  }

  lemma OneMoreNaming(cs: seq<Credential>, c: Credential, app: int)
    ensures |Naming(cs + [c], app)| == |Naming(cs, app)| + if c.application.id == app then 1 else 0
  {
    assert Naming(cs + [c], app) == Naming(cs, app) + if c.application.id == app then {|cs|} else {};
  }

  lemma NamedAtSomePlace(cs: seq<Credential>, app: int)
    ensures Names(cs, app) <==> |Naming(cs, app)| > 0
  {
    if i :| 0 <= i < |cs| && cs[i].application.id == app {
      assert i in Naming(cs, app);
    } else {
      assert Naming(cs, app) == {};
    }
  }

  /** An application has a use counted exactly when a listed key names it. */
  ghost predicate TellsNamed(listing: seq<Credential>, used: map<int, nat>) {
    forall app :: Names(listing, app) <==> app in used && used[app] > 0
  }

  /** How many keys name each application. */
  method CountUses(listing: seq<Credential>) returns (used: map<int, nat>)
    ensures forall app :: (if app in used then used[app] else 0) == |Naming(listing, app)|
    ensures TellsNamed(listing, used)
  {
    used := map[];
    for i := 0 to |listing|
      invariant forall app :: (if app in used then used[app] else 0) == |Naming(listing[..i], app)|
    {
      var app := listing[i].application.id;
      assert listing[..i + 1] == listing[..i] + [listing[i]];
      forall x ensures |Naming(listing[..i + 1], x)| == |Naming(listing[..i], x)| + if app == x then 1 else 0 {
        OneMoreNaming(listing[..i], listing[i], x);
      }
      used := used[app := (if app in used then used[app] else 0) + 1];
    }
    assert listing[..|listing|] == listing;
    forall app ensures Names(listing, app) <==> app in used && used[app] > 0 {
      NamedAtSomePlace(listing, app);
    }
  }

  /** They stand in the order of the listing. */
  lemma {:induction false} UnusedInOrder(apps: seq<int>, more: seq<int>, cs: seq<Credential>)
    ensures Unused(apps + more, cs) == Unused(apps, cs) + Unused(more, cs)
  {
    if more == [] {
      assert apps + more == apps;
    } else {
      var init, last := LastApart(apps, more);
      UnusedInOrder(apps, init, cs);
      UnusedOfOneMore(apps + init, last, cs);
      UnusedOfOneMore(init, last, cs);
      Regrouped(Unused(apps, cs), Unused(init, cs), if Names(cs, last) then [] else [last]);
    }
  }

  lemma UnusedUpTo(apps: seq<int>, i: nat, cs: seq<Credential>)
    requires i < |apps|
    ensures Unused(apps[..i + 1], cs) == Unused(apps[..i], cs) + if Names(cs, apps[i]) then [] else [apps[i]]
  {
    assert apps[..i + 1] == apps[..i] + [apps[i]];
    UnusedOfOneMore(apps[..i], apps[i], cs);
  }

  lemma UnusedOfOneMore(apps: seq<int>, app: int, cs: seq<Credential>)
    ensures Unused(apps + [app], cs) == Unused(apps, cs) + if Names(cs, app) then [] else [app]
  {
    assert (apps + [app])[..|apps|] == apps;
  }

  lemma {:induction false} UnusedAre(apps: seq<int>, cs: seq<Credential>, app: int)
    ensures app in Unused(apps, cs) <==> app in apps && !Names(cs, app)
  {
    if apps != [] {
      UnusedAre(apps[..|apps| - 1], cs, app);
      assert apps == apps[..|apps| - 1] + [apps[|apps| - 1]];
    }
  }
}
