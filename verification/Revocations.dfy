/** Revocations over an API whose answers are given beforehand: what one call comes to, what the
    single handler and the sweep report of it, and when those reports are true
    (internal/legacy/provider.go, internal/httpapi/revoke.go, internal/httpapi/sweep.go). */
module Revocations {
  import opened Text
  import opened Credentials
  import opened Accounts

  /** The errors one failure wraps; a call that succeeds has none. */
  datatype Kind =
    | NotFound | PermissionDenied | SelfRevocation | ApplicationInUse | IdentityUnavailable | ApiFailure

  type Fault = set<Kind>

  /** How the API takes the question which key is in use. */
  datatype Identity = Told | Unknown | Withheld | Broken

  /** How it takes a write. A lost answer says nothing about whether the write was carried out. */
  datatype Reply = Heard | Forbidden | AnswerLost(acted: bool)

  /** The answers met at one key of a set. */
  datatype Turn = Turn(identity: Identity, reply: Reply)

  /** What a call leaves: the account, the errors it reports and the writes it sent. */
  datatype Outcome = Outcome(account: Account, fault: Fault, sent: seq<Write>)

  function CredentialPath(id: int): string {
    "/me/api/credential/" + Decimal(id)
  }

  predicate IsInactive(status: Status) {
    status.Expired? || status.Refused?
  }

  function InactiveIds(cs: seq<Credential>): seq<int> {
    if cs == [] then []
    else InactiveIds(cs[..|cs| - 1]) + (if IsInactive(cs[|cs| - 1].status) then [cs[|cs| - 1].id] else [])
  }

  lemma {:induction false} InactiveIdsAre(cs: seq<Credential>, id: int)
    ensures id in InactiveIds(cs)
            <==> exists i :: 0 <= i < |cs| && cs[i].id == id && (cs[i].status.Expired? || cs[i].status.Refused?)
  {
    if cs != [] {
      var init := cs[..|cs| - 1];
      InactiveIdsAre(init, id);
      if i :| 0 <= i < |cs| && cs[i].id == id && IsInactive(cs[i].status) && i < |init| {
        assert init[i] == cs[i];
      }
    }
  }

  /** They stand in the order of the listing. */
  lemma {:induction false} InactiveIdsInOrder(cs: seq<Credential>, more: seq<Credential>)
    ensures InactiveIds(cs + more) == InactiveIds(cs) + InactiveIds(more)
  {
    if more == [] {
      assert cs + more == cs;
    } else {
      var init, last := LastApart(cs, more);
      InactiveIdsInOrder(cs, init);
      InactiveIdsOfOneMore(cs + init, last);
      InactiveIdsOfOneMore(init, last);
      Regrouped(InactiveIds(cs), InactiveIds(init), if IsInactive(last.status) then [last.id] else []);
    }
  }

  lemma InactiveIdsOfOneMore(cs: seq<Credential>, c: Credential)
    ensures InactiveIds(cs + [c]) == InactiveIds(cs) + if IsInactive(c.status) then [c.id] else []
  {
    assert (cs + [c])[..|cs|] == cs;
  }

  predicate Listed(cs: seq<Credential>, id: int) {
    exists c :: c in cs && c.id == id
  }

  predicate Targets(a: Account, w: Write) {
    match w
    case DeleteApplication(_, _, _, app) => app in a.applications
    case _ => Listed(a.credentials, w.id)
  }

  /** One write at the API, which alone knows whether the target exists. */
  function Sent(a: Account, w: Write, reply: Reply): Outcome {
    match reply
    case Forbidden => Outcome(a, {PermissionDenied}, [w])
    case Heard => if Targets(a, w) then Outcome(After(a, w), {}, [w]) else Outcome(a, {NotFound}, [w])
    case AnswerLost(acted) => Outcome(if acted && Targets(a, w) then After(a, w) else a, {ApiFailure}, [w])
  }

  /** Why the key in use could not be told, none when it could. */
  function IdentityFault(a: Account, own: int, identity: Identity): Fault {
    match identity
    case Told => if Listed(a.credentials, own) then {} else {NotFound}
    case Unknown => {NotFound}
    case Withheld => {PermissionDenied}
    case Broken => {ApiFailure}
  }

  /** The provider, for a caller that knows the key in use. */
  function RevokedAgainst(a: Account, own: int, id: int, reply: Reply): Outcome {
    if id == own then Outcome(a, {SelfRevocation}, []) else Sent(a, DeleteKey(own, id), reply)
  }

  /** The provider, finding out first. */
  function Revoked(a: Account, own: int, id: int, turn: Turn): Outcome {
    var unknown := IdentityFault(a, own, turn.identity);
    if unknown != {} then Outcome(a, unknown + {IdentityUnavailable}, []) else RevokedAgainst(a, own, id, turn.reply)
  }

  lemma RevokedIsGone(a: Account, own: int, id: int, reply: Reply)
    requires id != own
    ensures var o := RevokedAgainst(a, own, id, reply);
            o.fault == {} || NotFound in o.fault ==> !Listed(o.account.credentials, id)
  {
  }

  // The single handler

  datatype Answer = Done | AlreadyRevoked | IdentityUnknown | RefusedItself | NotAllowed | Failed

  /** How a failed revocation is worded: an unknown key is looked for before an unknown identity. */
  function AnswerTo(fault: Fault): Answer {
    if fault == {} then Done
    else if NotFound in fault then AlreadyRevoked
    else if IdentityUnavailable in fault then IdentityUnknown
    else if SelfRevocation in fault then RefusedItself
    else if PermissionDenied in fault then NotAllowed
    else Failed
  }

  predicate SaysGone(answer: Answer) {
    answer.Done? || answer.AlreadyRevoked?
  }

  /** The answer is true but where the API, asked which key is in use, says it knows none and the
      key to revoke is still there: nothing is sent then, and the reader is told it is gone. */
  lemma SingleAnswerIsTrue(a: Account, own: int, id: int, turn: Turn)
    ensures var o := Revoked(a, own, id, turn);
            (SaysGone(AnswerTo(o.fault)) ==> !Listed(o.account.credentials, id))
            <==> !(NotFound in IdentityFault(a, own, turn.identity) && Listed(a.credentials, id))
  {
    var unknown := IdentityFault(a, own, turn.identity);
    if unknown == {} && id != own {
      RevokedIsGone(a, own, id, turn.reply);
    }
  }

  /** The answer, from what the API said: first to the question which key is in use, then to the deletion. */
  lemma AnswersByCause(a: Account, own: int, id: int, turn: Turn)
    ensures AnswerTo(Revoked(a, own, id, turn).fault) ==
            if turn.identity.Withheld? || turn.identity.Broken? then IdentityUnknown
            else if turn.identity.Unknown? || !Listed(a.credentials, own) then AlreadyRevoked
            else if id == own then RefusedItself
            else
              match turn.reply
              case Heard => if Listed(a.credentials, id) then Done else AlreadyRevoked
              case Forbidden => NotAllowed
              case AnswerLost(_) => Failed
  {
  }

  // The sweep

  /** What is reported about one target: the code it was refused under, or none. */
  datatype Report = Report(id: int, code: Option<Kind>)

  /** How far a sweep is. */
  datatype Progress = Progress(account: Account, report: seq<Report>, sent: seq<Write>)

  /** The code a failed revocation is reported under. */
  function RevocationCode(fault: Fault): Kind {
    if IdentityUnavailable in fault then IdentityUnavailable
    else if SelfRevocation in fault then SelfRevocation
    else if PermissionDenied in fault then PermissionDenied
    else ApiFailure
  }

  ghost predicate MayRevoke(current: Credential, id: int) {
    id != current.id && Permitted(current.rules, "DELETE", CredentialPath(id))
  }

  /** One key: refused by the offer where the key in use is known, and sent for otherwise. */
  ghost function SweptOne(a: Account, own: int, current: Option<Credential>, id: int, turn: Turn): Outcome {
    if current.None? then Revoked(a, own, id, turn)
    else if id == current.value.id then Outcome(a, {SelfRevocation}, [])
    else if !MayRevoke(current.value, id) then Outcome(a, {PermissionDenied}, [])
    else RevokedAgainst(a, own, id, turn.reply)
  }

  /** A key the API does not know counts as revoked, whatever else the error wraps. */
  function CodeOf(fault: Fault): Option<Kind> {
    if fault == {} || NotFound in fault then None else Some(RevocationCode(fault))
  }

  ghost function Swept(a: Account, own: int, current: Option<Credential>, ids: seq<int>, turns: nat -> Turn): Progress {
    if ids == [] then Progress(a, [], [])
    else
      var last := |ids| - 1;
      Next(Swept(a, own, current, ids[..last], turns), own, current, ids[last], turns(last))
  }

  ghost function Next(p: Progress, own: int, current: Option<Credential>, id: int, turn: Turn): Progress {
    var o := SweptOne(p.account, own, current, id, turn);
    Progress(o.account, p.report + [Report(id, CodeOf(o.fault))], p.sent + o.sent)
  }

  lemma SweptNext(a: Account, own: int, current: Option<Credential>, ids: seq<int>, turns: nat -> Turn, id: int)
    ensures Swept(a, own, current, ids + [id], turns)
            == Next(Swept(a, own, current, ids, turns), own, current, id, turns(|ids|))
  {
    assert (ids + [id])[..|ids|] == ids;
  }

  /** A sweep goes on by what one more key comes to. */
  lemma OneMoreSwept(a: Account, own: int, current: Option<Credential>, ids: seq<int>, turns: nat -> Turn, p: Progress,
                     one: Report, account: Account, start: seq<Write>, log: seq<Write>) returns (sent: seq<Write>)
    requires Swept(a, own, current, ids, turns) == p
    requires var o := SweptOne(p.account, own, current, one.id, turns(|ids|));
             account == o.account && one.code == CodeOf(o.fault) && log == start + p.sent + o.sent
    ensures Swept(a, own, current, ids + [one.id], turns) == Progress(account, p.report + [one], sent)
    ensures log == start + sent
  {
    SweptNext(a, own, current, ids, turns, one.id);
    sent := Joined(start, p.sent, SweptOne(p.account, own, current, one.id, turns(|ids|)).sent);
  }

  lemma Joined(start: seq<Write>, sent: seq<Write>, more: seq<Write>) returns (all: seq<Write>)
    ensures all == sent + more && start + sent + more == start + all
  {
    all := sent + more;
  }

  predicate ReportsOn(report: seq<Report>, ids: seq<int>) {
    |report| == |ids| && forall k :: 0 <= k < |ids| ==> report[k].id == ids[k]
  }

  /** Some of the keys named are gone, nothing is new, and all others and the own key are as they were. */
  ghost predicate OnlyThoseGone(before: Account, after: Account, own: int, ids: seq<int>) {
    && after.applications == before.applications
    && (forall c :: c in after.credentials ==> c in before.credentials)
    && (forall c :: c in before.credentials && (c.id == own || c.id !in ids) ==> c in after.credentials)
  }

  /** Every target reported without a code is gone. */
  ghost predicate ReportsTheGone(report: seq<Report>, a: Account) {
    forall r :: r in report && r.code.None? ==> !Listed(a.credentials, r.id)
  }

  lemma OneMoreGone(a: Account, b: Account, c: Account, own: int, ids: seq<int>, id: int)
    requires OnlyThoseGone(a, b, own, ids) && OnlyThoseGone(b, c, own, [id])
    ensures OnlyThoseGone(a, c, own, ids + [id])
  {
  }

  lemma DeletionKeepsOthers(a: Account, own: int, id: int, reply: Reply)
    requires id != own
    ensures OnlyThoseGone(a, Sent(a, DeleteKey(own, id), reply).account, own, [id])
  {
  }

  lemma SweptOneKeepsOthers(a: Account, own: int, current: Option<Credential>, id: int, turn: Turn)
    ensures OnlyThoseGone(a, SweptOne(a, own, current, id, turn).account, own, [id])
  {
    if id != own {
      DeletionKeepsOthers(a, own, id, turn.reply);
    }
  }

  /** Whatever the API answers, only keys of the set go, never the one in use, and each is reported on. */
  lemma {:induction false} SweepKeepsOthers(a: Account, own: int, current: Option<Credential>, ids: seq<int>,
                                            turns: nat -> Turn)
    ensures OnlyThoseGone(a, Swept(a, own, current, ids, turns).account, own, ids)
    ensures ReportsOn(Swept(a, own, current, ids, turns).report, ids)
  {
    if ids != [] {
      var init, id := ids[..|ids| - 1], ids[|ids| - 1];
      SweepKeepsOthers(a, own, current, init, turns);
      var p := Swept(a, own, current, init, turns);
      SweptOneKeepsOthers(p.account, own, current, id, turns(|init|));
      OneMoreGone(a, p.account, SweptOne(p.account, own, current, id, turns(|init|)).account, own, init, id);
      assert ids == init + [id];
    }
  }

  /** What is sent for one key: its deletion, where the key in use is known and its rules cover it,
      or is told at that turn, and is another. */
  ghost predicate IsSent(own: int, current: Option<Credential>, id: int, turn: Turn) {
    id != own && if current.Some? then MayRevoke(current.value, id) else turn.identity.Told?
  }

  ghost function Deletions(own: int, current: Option<Credential>, ids: seq<int>, turns: nat -> Turn): seq<Write> {
    if ids == [] then []
    else
      var last := |ids| - 1;
      Deletions(own, current, ids[..last], turns)
      + if IsSent(own, current, ids[last], turns(last)) then [DeleteKey(own, ids[last])] else []
  }

  lemma SweptOneSends(a: Account, own: int, current: Option<Credential>, id: int, turn: Turn)
    requires Listed(a.credentials, own) && (current.Some? ==> current.value.id == own)
    ensures SweptOne(a, own, current, id, turn).sent
            == if IsSent(own, current, id, turn) then [DeleteKey(own, id)] else []
  {
  }

  /** The deletions sent are those, in order, and no other write is. */
  lemma {:induction false} SweepSends(a: Account, own: int, current: Option<Credential>, ids: seq<int>,
                                      turns: nat -> Turn)
    requires Listed(a.credentials, own) && (current.Some? ==> current.value.id == own)
    ensures Swept(a, own, current, ids, turns).sent == Deletions(own, current, ids, turns)
  {
    if ids != [] {
      var last := |ids| - 1;
      SweepSends(a, own, current, ids[..last], turns);
      SweepKeepsOthers(a, own, current, ids[..last], turns);
      SweptOneSends(Swept(a, own, current, ids[..last], turns).account, own, current, ids[last], turns(last));
    }
  }

  /** What a deletion that was sent is reported under. */
  ghost predicate ReportedFor(code: Option<Kind>, reply: Reply) {
    match reply
    case Heard => code == None
    case Forbidden => code == Some(PermissionDenied)
    case AnswerLost(_) => code == Some(ApiFailure)
  }

  /** What one key is reported under, from what the API said alone. */
  ghost predicate ReportedByCause(code: Option<Kind>, listed: bool, own: int, current: Option<Credential>, id: int,
                                  turn: Turn) {
    match current
    case Some(c) =>
      if id == own then code == Some(SelfRevocation)
      else if !Permitted(c.rules, "DELETE", "/me/api/credential/" + Decimal(id)) then code == Some(PermissionDenied)
      else ReportedFor(code, turn.reply)
    case None =>
      match turn.identity
      case Unknown => code == None
      case Withheld => code == Some(IdentityUnavailable)
      case Broken => code == Some(IdentityUnavailable)
      case Told =>
        if !listed then code == None
        else if id == own then code == Some(SelfRevocation)
        else ReportedFor(code, turn.reply)
  }

  lemma SweptOneIsReported(a: Account, own: int, current: Option<Credential>, id: int, turn: Turn)
    requires current.Some? ==> current.value.id == own
    ensures var listed := Listed(a.credentials, own);
            ReportedByCause(CodeOf(SweptOne(a, own, current, id, turn).fault), listed, own, current, id, turn)
  {
    if id != own {
      SentIsReported(a, DeleteKey(own, id), turn.reply);
    }
  }

  lemma SentIsReported(a: Account, w: Write, reply: Reply)
    ensures ReportedFor(CodeOf(Sent(a, w, reply).fault), reply)
  {
  }

  /** One key of a sweep, the answers met at it and what it was reported under. */
  datatype Said = Said(id: int, turn: Turn, code: Option<Kind>)

  /** What holds of one key at its turn, whatever went before, holds of each. */
  lemma {:induction false} EveryTurn(a: Account, own: int, current: Option<Credential>, ids: seq<int>,
                                     turns: nat -> Turn, holds: Said -> bool)
    requires forall b: Account, id, turn ::
               (Listed(b.credentials, own) <==> Listed(a.credentials, own))
               ==> holds(Said(id, turn, CodeOf(SweptOne(b, own, current, id, turn).fault)))
    ensures var report := Swept(a, own, current, ids, turns).report;
            ReportsOn(report, ids) && forall k :: 0 <= k < |ids| ==> holds(Said(ids[k], turns(k), report[k].code))
  {
    if ids != [] {
      var last := |ids| - 1;
      var init := ids[..last];
      var p := Swept(a, own, current, init, turns);
      EveryTurn(a, own, current, init, turns, holds);
      SweepKeepsOthers(a, own, current, init, turns);
      var code := CodeOf(SweptOne(p.account, own, current, ids[last], turns(last)).fault);
      OneMoreTurn(p.report, ids, turns, holds, code);
      assert Swept(a, own, current, ids, turns).report == p.report + [Report(ids[last], code)];
    }
  }

  lemma OneMoreTurn(report: seq<Report>, ids: seq<int>, turns: nat -> Turn, holds: Said -> bool,
                    code: Option<Kind>)
    requires ids != [] && ReportsOn(report, ids[..|ids| - 1])
    requires forall k :: 0 <= k < |ids| - 1 ==> holds(Said(ids[..|ids| - 1][k], turns(k), report[k].code))
    requires holds(Said(ids[|ids| - 1], turns(|ids| - 1), code))
    ensures var more := report + [Report(ids[|ids| - 1], code)];
            ReportsOn(more, ids) && forall k :: 0 <= k < |ids| ==> holds(Said(ids[k], turns(k), more[k].code))
  {
    assert forall k :: 0 <= k < |ids| - 1 ==> ids[..|ids| - 1][k] == ids[k];
  }

  /** Every report of a sweep follows from the answers at its turn: a deletion that went through, or
      found nothing left to delete, has no code, and every other outcome its own. */
  lemma SweepReportsByCause(a: Account, own: int, current: Option<Credential>, ids: seq<int>, turns: nat -> Turn,
                            k: nat)
    requires k < |ids| && (current.Some? ==> current.value.id == own)
    ensures var report := Swept(a, own, current, ids, turns).report;
            && |report| == |ids| && report[k].id == ids[k]
            && ReportedByCause(report[k].code, Listed(a.credentials, own), own, current, ids[k], turns(k))
  {
    var listed := Listed(a.credentials, own);
    var holds := (one: Said) => ReportedByCause(one.code, listed, own, current, one.id, one.turn);
    forall b: Account, id, turn | Listed(b.credentials, own) <==> listed
      ensures holds(Said(id, turn, CodeOf(SweptOne(b, own, current, id, turn).fault)))
    {
      SweptOneIsReported(b, own, current, id, turn);
    }
    EveryTurn(a, own, current, ids, turns, holds);
    assert holds(Said(ids[k], turns(k), Swept(a, own, current, ids, turns).report[k].code));
  }

  /** Keys only ever go, so what was gone at its turn is gone at the end. */
  lemma {:induction false} KnownSweepIsTrue(a: Account, own: int, current: Credential, ids: seq<int>,
                                            turns: nat -> Turn)
    requires current.id == own
    ensures var p := Swept(a, own, Some(current), ids, turns); ReportsTheGone(p.report, p.account)
  {
    if ids != [] {
      var init, id := ids[..|ids| - 1], ids[|ids| - 1];
      var p := Swept(a, own, Some(current), init, turns);
      KnownSweepIsTrue(a, own, current, init, turns);
      SweptOneKeepsOthers(p.account, own, Some(current), id, turns(|init|));
      if MayRevoke(current, id) {
        RevokedIsGone(p.account, own, id, turns(|init|).reply);
      }
    }
  }

  /** The API knows no key whenever it is asked. */
  function Unknowing(): nat -> Turn {
    (k: nat) => Turn(Unknown, Heard)
  }

  /** Then every key of the set counts as revoked, and nothing is sent. */
  lemma UnknowingSweep(a: Account, own: int, ids: seq<int>)
    ensures var p := Swept(a, own, None, ids, Unknowing());
            p.account == a && p.sent == [] && |p.report| == |ids|
            && forall k :: 0 <= k < |ids| ==> p.report[k] == Report(ids[k], None)
  {
    NothingSentUnknowing(a, own, ids);
    var holds := (one: Said) => one.turn.identity.Unknown? ==> one.code.None?;
    EveryTurn(a, own, None, ids, Unknowing(), holds);
    var report := Swept(a, own, None, ids, Unknowing()).report;
    forall k | 0 <= k < |ids| ensures report[k] == Report(ids[k], None) {
      assert holds(Said(ids[k], Unknowing()(k), report[k].code));
    }
  }

  lemma {:induction false} NothingSentUnknowing(a: Account, own: int, ids: seq<int>)
    ensures var p := Swept(a, own, None, ids, Unknowing()); p.account == a && p.sent == []
  {
    if ids != [] {
      var last := |ids| - 1;
      NothingSentUnknowing(a, own, ids[..last]);
      UnknowingTurn(a, own, ids[last]);
      assert Unknowing()(last) == Turn(Unknown, Heard);
    }
  }

  lemma UnknowingTurn(a: Account, own: int, id: int)
    ensures var o := SweptOne(a, own, None, id, Turn(Unknown, Heard));
            o.account == a && o.sent == [] && CodeOf(o.fault) == None
  {
  }

  /** The keys reported as revoked are gone under every answer the API can give if and only if the
      key in use was known at the start, or no key is due. */
  lemma SweepIsTrueExactly(a: Account, own: int, current: Option<Credential>, listing: seq<Credential>)
    requires current.Some? ==> current.value.id == own
    requires forall c :: c in listing ==> c in a.credentials
    ensures (forall turns: nat -> Turn :: var p := Swept(a, own, current, InactiveIds(listing), turns);
                                          ReportsTheGone(p.report, p.account))
            <==> current.Some? || InactiveIds(listing) == []
  {
    var ids := InactiveIds(listing);
    if current.Some? {
      forall turns: nat -> Turn
        ensures var p := Swept(a, own, current, ids, turns); ReportsTheGone(p.report, p.account)
      {
        KnownSweepIsTrue(a, own, current.value, ids, turns);
      }
    } else if ids != [] {
      UnknowingSweep(a, own, ids);
      InactiveIdsAre(listing, ids[0]);
      var p := Swept(a, own, current, ids, Unknowing());
      assert p.report[0] == Report(ids[0], None) && p.report[0] in p.report;
      assert Listed(a.credentials, ids[0]);
    }
  }

  /** One expired key; the key in use not told at the start, and unknown when asked again. The
      expired key is reported as revoked, is still there, and nothing was sent. */
  lemma SweepMiscounts(own: Credential, expired: Credential)
    requires own.id != expired.id && IsInactive(expired.status) && !IsInactive(own.status)
    ensures var a := Account([own, expired], {own.application.id, expired.application.id});
            var p := Swept(a, own.id, None, InactiveIds(a.credentials), Unknowing());
            p.report == [Report(expired.id, None)] && p.sent == [] && p.account == a
            && Listed(p.account.credentials, expired.id)
  {
    var cs := [own, expired];
    assert cs[..1] == [own] && [own][..0] == [];
    assert InactiveIds([own]) == [];
    assert InactiveIds(cs) == [expired.id];
    var a := Account(cs, {own.application.id, expired.application.id});
    UnknowingSweep(a, own.id, [expired.id]);
    assert expired in cs;
  }
}
