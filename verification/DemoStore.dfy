/** The account the demonstration server keeps in memory, with the guards of the real provider
    (tools/demo/main.go). */
module DemoStore {
  import opened Text
  import opened Net
  import opened Credentials
  import opened Accounts
  import opened Revocations

  // The store as a state machine

  datatype State = State(current: Credential, credentials: seq<Credential>, applications: seq<Application>)

  /** A change asked of the store. A deletion goes by the listing of an earlier moment. */
  datatype Call = Revoking(id: int) | Addressing(id: int, allowed: seq<Prefix>) | Deleting(read: nat, app: int)

  predicate Holds(apps: seq<Application>, id: int) {
    exists i :: 0 <= i < |apps| && apps[i].id == id
  }

  function WithoutApplication(apps: seq<Application>, id: int): (rest: seq<Application>)
    ensures forall a :: a in rest <==> a in apps && a.id != id
  {
    if apps == [] then [] else (if apps[0].id == id then [] else [apps[0]]) + WithoutApplication(apps[1..], id)
  }

  /** The applications left follow each other as they did. */
  lemma {:induction false} WithoutApplicationInOrder(a: seq<Application>, b: seq<Application>, id: int)
    ensures WithoutApplication(a + b, id) == WithoutApplication(a, id) + WithoutApplication(b, id)
    ensures |a| == 1 ==> WithoutApplication(a, id) == if a[0].id == id then [] else a
  {
    if a == [] {
      assert a + b == b;
    } else {
      assert (a + b)[1..] == a[1..] + b;
      WithoutApplicationInOrder(a[1..], b, id);
      Regrouped(if a[0].id == id then [] else [a[0]], WithoutApplication(a[1..], id), WithoutApplication(b, id));
    }
  }

  function Dropped(s: State, id: int): State {
    if id == s.current.id then s else s.(credentials := Without(s.credentials, id))
  }

  function Addressed(s: State, id: int, allowed: seq<Prefix>): State {
    State(if id == s.current.id then s.current.(allowed := allowed) else s.current,
          WithAddresses(s.credentials, id, allowed), s.applications)
  }

  function Deleted(s: State, listing: seq<Credential>, app: int): State {
    if Names(listing, app) then s else s.(applications := WithoutApplication(s.applications, app))
  }

  /** A key whose application the account owns and has. */
  predicate OwnsApplication(c: Credential) {
    !c.application.external && !c.application.deleted
  }

  /** One key an identifier, the key in use as it is listed, and no key without its application. */
  ghost predicate Healthy(s: State) {
    && Unique(s.credentials)
    && s.current in s.credentials
    && forall c :: c in s.credentials && OwnsApplication(c) ==> Holds(s.applications, c.application.id)
  }

  /** Some key of the account stands on the application. */
  ghost predicate StandsOn(cs: seq<Credential>, app: int) {
    exists c :: c in cs && OwnsApplication(c) && c.application.id == app
  }

  lemma {:induction false} WithoutKeepsUnique(cs: seq<Credential>, id: int)
    requires Unique(cs)
    ensures Unique(Without(cs, id))
  {
    if cs != [] {
      assert Unique(cs[1..]) by {
        assert forall i :: 0 <= i < |cs| - 1 ==> cs[1..][i] == cs[i + 1];
      }
      WithoutKeepsUnique(cs[1..], id);
      var rest := Without(cs[1..], id);
      forall i | 0 <= i < |rest| ensures rest[i].id != cs[0].id {
        assert rest[i] in cs[1..];
        var j :| 0 <= j < |cs[1..]| && cs[1..][j] == rest[i];
        assert cs[0].id != cs[j + 1].id;
      }
    }
  }

  lemma RevokingKeepsHealthy(s: State, id: int)
    requires Healthy(s)
    ensures Healthy(Dropped(s, id))
  {
    WithoutKeepsUnique(s.credentials, id);
  }

  lemma AddressingKeepsHealthy(s: State, id: int, allowed: seq<Prefix>)
    requires Healthy(s)
    ensures Healthy(Addressed(s, id, allowed))
  {
    var t := Addressed(s, id, allowed);
    var k :| 0 <= k < |s.credentials| && s.credentials[k] == s.current;
    assert t.credentials[k] == t.current;
    forall c | c in t.credentials && OwnsApplication(c) ensures Holds(t.applications, c.application.id) {
      var i :| 0 <= i < |t.credentials| && t.credentials[i] == c;
      assert s.credentials[i] in s.credentials && OwnsApplication(s.credentials[i]);
    }
  }

  /** Taking an application away leaves the store healthy exactly when no key stands on it. */
  lemma DeletingKeepsHealthy(s: State, app: int)
    requires Healthy(s)
    ensures Healthy(s.(applications := WithoutApplication(s.applications, app))) <==> !StandsOn(s.credentials, app)
  {
    var rest := WithoutApplication(s.applications, app);
    if StandsOn(s.credentials, app) {
      var c :| c in s.credentials && OwnsApplication(c) && c.application.id == app;
      assert forall i :: 0 <= i < |rest| ==> rest[i] in rest;
      assert !Holds(rest, c.application.id);
    } else {
      forall c | c in s.credentials && OwnsApplication(c) ensures Holds(rest, c.application.id) {
        var i :| 0 <= i < |s.applications| && s.applications[i].id == c.application.id;
        assert s.applications[i] in rest;
      }
    }
  }

  /** A key added under an identifier of its own, on an application the account has. */
  lemma AddingKeepsHealthy(s: State, c: Credential)
    requires Healthy(s) && !Listed(s.credentials, c.id)
    requires OwnsApplication(c) ==> Holds(s.applications, c.application.id)
    ensures Healthy(s.(credentials := s.credentials + [c]))
  {
    assert forall i :: 0 <= i < |s.credentials| ==> s.credentials[i] in s.credentials;
  }

  lemma MoreApplicationsKeepHealthy(s: State, a: Application)
    requires Healthy(s)
    ensures Healthy(s.(applications := s.applications + [a]))
    ensures Holds(s.applications + [a], a.id)
    ensures forall id :: Holds(s.applications, id) ==> Holds(s.applications + [a], id)
  {
    var more := s.applications + [a];
    assert more[|s.applications|] == a;
    forall id | Holds(s.applications, id) ensures Holds(more, id) {
      var i :| 0 <= i < |s.applications| && s.applications[i].id == id;
      assert more[i].id == id;
    }
  }

  // What every run keeps

  function Apply(s: State, call: Call, listing: seq<Credential>): State {
    match call
    case Revoking(id) => Dropped(s, id)
    case Addressing(id, allowed) => Addressed(s, id, allowed)
    case Deleting(_, app) => Deleted(s, listing, app)
  }

  /** The call answered next, on a listing read at that moment or any time before. */
  ghost predicate Answers(history: seq<State>, calls: seq<Call>, i: nat) {
    && i < |calls| && i + 1 < |history|
    && (calls[i].Deleting? ==> calls[i].read <= i)
    && history[i + 1] == Apply(history[i], calls[i],
                               if calls[i].Deleting? then history[calls[i].read].credentials else [])
  }

  /** Calls one after the other, in whatever order their requests interleave. */
  ghost predicate Serves(history: seq<State>, calls: seq<Call>) {
    |history| == |calls| + 1 && forall i: nat :: i < |calls| ==> Answers(history, calls, i)
  }

  lemma ApplyShrinks(s: State, call: Call, listing: seq<Credential>)
    ensures Shrinks(s.credentials, Apply(s, call, listing).credentials)
    ensures Apply(s, call, listing).current.id == s.current.id
  {
    var after := Apply(s, call, listing).credentials;
    if call.Addressing? {
      forall c | c in after ensures (c.id, c.application.id) in Standing(s.credentials) {
        var i :| 0 <= i < |after| && after[i] == c;
        assert s.credentials[i] in s.credentials;
      }
    }
  }

  /** Lists each of which shrinks into the next shrink from any earlier one into any later one. */
  lemma {:induction false} StepsShrink(lists: seq<seq<Credential>>, first: nat, last: nat)
    requires first <= last < |lists|
    requires forall i :: 0 <= i < |lists| - 1 ==> Shrinks(lists[i], lists[i + 1])
    ensures Shrinks(lists[first], lists[last])
    decreases last
  {
    if first < last {
      StepsShrink(lists, first, last - 1);
      assert Shrinks(lists[last - 1], lists[last - 1 + 1]);
    }
  }

  lemma ServingShrinks(history: seq<State>, calls: seq<Call>, first: nat, last: nat)
    requires Serves(history, calls) && first <= last < |history|
    ensures Shrinks(history[first].credentials, history[last].credentials)
  {
    var lists := seq(|history|, i requires 0 <= i < |history| => history[i].credentials);
    forall i | 0 <= i < |lists| - 1 ensures Shrinks(lists[i], lists[i + 1]) {
      assert Answers(history, calls, i);
      ApplyShrinks(history[i], calls[i], if calls[i].Deleting? then history[calls[i].read].credentials else []);
    }
    StepsShrink(lists, first, last);
  }

  /** A listing however old names every application a key still stands on. */
  lemma StaleListingsAreSafe(s: State, listing: seq<Credential>, app: int)
    requires Healthy(s) && Shrinks(listing, s.credentials)
    ensures Healthy(Deleted(s, listing, app))
  {
    if !Names(listing, app) {
      forall c | c in s.credentials && OwnsApplication(c) ensures c.application.id != app {
        assert (c.id, c.application.id) in Standing(s.credentials);
        var b :| b in listing && (b.id, b.application.id) == (c.id, c.application.id);
        var i :| 0 <= i < |listing| && listing[i] == b;
      }
      DeletingKeepsHealthy(s, app);
    }
  }

  /** A store in good order, with every list of keys a caller can have read from it so far. */
  ghost predicate Good(s: State, read: seq<seq<Credential>>) {
    && Healthy(s)
    && read != [] && read[|read| - 1] == s.credentials
    && forall i :: 0 <= i < |read| ==> Shrinks(read[i], s.credentials)
  }

  lemma ApplyKeepsHealthy(s: State, call: Call, listing: seq<Credential>)
    requires Healthy(s) && (call.Deleting? ==> Shrinks(listing, s.credentials))
    ensures Healthy(Apply(s, call, listing))
  {
    match call
    case Revoking(id) => RevokingKeepsHealthy(s, id);
    case Addressing(id, allowed) => AddressingKeepsHealthy(s, id, allowed);
    case Deleting(_, app) => StaleListingsAreSafe(s, listing, app);
  }

  lemma ApplyKeepsGood(s: State, read: seq<seq<Credential>>, call: Call, listing: seq<Credential>)
    requires Good(s, read) && (call.Deleting? ==> listing in read)
    ensures var t := Apply(s, call, listing); Good(t, read + [t.credentials])
  {
    var t := Apply(s, call, listing);
    ApplyKeepsHealthy(s, call, listing);
    ApplyShrinks(s, call, listing);
  }

  /** Over every run the store stays healthy and keeps the key in use. */
  lemma {:induction false} ServingKeepsHealthy(history: seq<State>, calls: seq<Call>, i: nat)
    requires Serves(history, calls) && i < |history|
    requires Healthy(history[0])
    ensures Healthy(history[i]) && history[i].current.id == history[0].current.id
  {
    if i > 0 {
      ServingKeepsHealthy(history, calls, i - 1);
      var call := calls[i - 1];
      assert Answers(history, calls, i - 1);
      var listing := if call.Deleting? then history[call.read].credentials else [];
      if call.Deleting? {
        ServingShrinks(history, calls, call.read, i - 1);
      }
      ApplyKeepsHealthy(history[i - 1], call, listing);
      ApplyShrinks(history[i - 1], call, listing);
    }
  }

  /** A listing of one status only is not enough: the key it leaves out loses its application. */
  lemma FilteredListingsAreNotSafe(key: Credential, app: Application)
    requires key.status.Expired? && OwnsApplication(key) && key.application.id == app.id
    ensures var s := State(key, [key], [app]);
            Healthy(s) && InStatus(s.credentials, Validated) == []
            && !Healthy(Deleted(s, InStatus(s.credentials, Validated), app.id))
  {
    var s := State(key, [key], [app]);
    assert s.applications[0].id == app.id;
    assert InStatus([key][..0], Validated) == [];
    DeletingKeepsHealthy(s, app.id);
    assert key in s.credentials;
  }

  function InStatus(cs: seq<Credential>, status: Status): (kept: seq<Credential>)
    ensures forall c :: c in kept <==> c in cs && c.status == status
  {
    if cs == [] then []
    else
      assert cs == cs[..|cs| - 1] + [cs[|cs| - 1]];
      InStatus(cs[..|cs| - 1], status) + (if cs[|cs| - 1].status == status then [cs[|cs| - 1]] else [])
  }

  /** A listing of one status follows the order of the keys. */
  lemma {:induction false} InStatusInOrder(cs: seq<Credential>, more: seq<Credential>, status: Status)
    ensures InStatus(cs + more, status) == InStatus(cs, status) + InStatus(more, status)
  {
    if more == [] {
      assert cs + more == cs;
    } else {
      var init, last := LastApart(cs, more);
      InStatusInOrder(cs, init, status);
      InStatusOfOneMore(cs + init, last, status);
      InStatusOfOneMore(init, last, status);
      Regrouped(InStatus(cs, status), InStatus(init, status), InStatus([last], status));
    }
  }

  lemma InStatusOfOneMore(cs: seq<Credential>, c: Credential, status: Status)
    ensures InStatus(cs + [c], status) == InStatus(cs, status) + InStatus([c], status)
    ensures InStatus([c], status) == if c.status == status then [c] else []
  {
    assert (cs + [c])[..|cs|] == cs && [c][..0] == [];
  }

  // The keys the store is filled with

  /** An application of the account, with any names and descriptions. */
  function Owned(about: int -> Application, id: int): Application {
    about(id).(id := id, external := false, deleted := false)
  }

  /** A key, with any rules, addresses and dates. */
  function Issued(details: int -> Credential, id: int, application: Application, status: Status): Credential {
    details(id).(id := id, application := application, status := status)
  }

  /** The invented account: ten keys, one on an application it does not own and one on a deleted
      one, and eight applications, one of them without a key. */
  function Invented(about: int -> Application, details: int -> Credential): State {
    var demo, dns, iam := Owned(about, 7101), Owned(about, 7110), Owned(about, 7111);
    var ticket, draft, backup := Owned(about, 7112), Owned(about, 7113), Owned(about, 7114);
    var cron, leftover := Owned(about, 7115), Owned(about, 7116);
    var console := about(7190).(id := 7190, external := true, deleted := false);
    var gone := Application(7117, "", "", "", false, true);
    var current := Issued(details, 118820001, demo, Validated);
    State(current, [
      current,
      Issued(details, 118820304, dns, Validated),
      Issued(details, 118820517, dns, Validated),
      Issued(details, 118821001, iam, Validated),
      Issued(details, 118821050, ticket, Validated),
      Issued(details, 118821099, draft, PendingValidation),
      Issued(details, 118821200, backup, Validated),
      Issued(details, 118821300, cron, Expired),
      Issued(details, 118821500, gone, Validated),
      Issued(details, 118821400, console, Validated)
    ], [demo, dns, iam, ticket, draft, backup, cron, leftover])
  }

  /** The identifiers of ten keys, each with its application where the account owns one, and of eight applications. */
  predicate Numbered(s: State, ids: seq<int>, named: seq<int>, apps: seq<int>)
    requires |ids| == 10 && |named| == 10 && |apps| == 8
  {
    && |s.credentials| == 10 && |s.applications| == 8
    && (forall i :: 0 <= i < 10 ==> s.credentials[i].id == ids[i])
    && (forall i :: 0 <= i < 10 && OwnsApplication(s.credentials[i]) ==> s.credentials[i].application.id == named[i])
    && (forall i :: 0 <= i < 8 ==> s.applications[i].id == apps[i])
  }

  const KEYS := [118820001, 118820304, 118820517, 118821001, 118821050, 118821099, 118821200, 118821300, 118821500,
                 118821400]
  const NAMED := [7101, 7110, 7110, 7111, 7112, 7113, 7114, 7115, 7101, 7101]
  const APPLICATIONS := [7101, 7110, 7111, 7112, 7113, 7114, 7115, 7116]

  lemma InventedIsNumbered(about: int -> Application, details: int -> Credential)
    ensures Numbered(Invented(about, details), KEYS, NAMED, APPLICATIONS)
    ensures Invented(about, details).current == Invented(about, details).credentials[0]
  {
  }

  lemma NumberedIsHealthy(s: State, ids: seq<int>, named: seq<int>, apps: seq<int>)
    requires |ids| == 10 && |named| == 10 && |apps| == 8 && Numbered(s, ids, named, apps)
    requires forall i, j :: 0 <= i < j < 10 ==> ids[i] != ids[j]
    requires forall i :: 0 <= i < 10 ==> named[i] in apps
    requires s.current == s.credentials[0]
    requires forall i :: 0 <= i < 10 ==> ids[i] < 119000000
    ensures Healthy(s)
    ensures forall c :: c in s.credentials ==> c.id < 119000000
  {
    forall c | c in s.credentials && OwnsApplication(c) ensures Holds(s.applications, c.application.id) {
      var i :| 0 <= i < 10 && s.credentials[i] == c;
      var k :| 0 <= k < 8 && apps[k] == named[i];
      assert s.applications[k].id == c.application.id;
    }
  }

  lemma NumbersFit()
    ensures |KEYS| == 10 && |NAMED| == 10 && |APPLICATIONS| == 8
    ensures forall i, j :: 0 <= i < j < 10 ==> KEYS[i] != KEYS[j]
    ensures forall i :: 0 <= i < 10 ==> KEYS[i] < 119000000 && NAMED[i] in APPLICATIONS
  {
  }

  /** Whatever is said of its keys and applications, the invented account is in order. */
  lemma InventedIsHealthy(about: int -> Application, details: int -> Credential)
    ensures Healthy(Invented(about, details))
    ensures forall c :: c in Invented(about, details).credentials ==> c.id < 119000000
  {
    InventedIsNumbered(about, details);
    NumbersFit();
    NumberedIsHealthy(Invented(about, details), KEYS, NAMED, APPLICATIONS);
  }

  /** The application of the group-th dozen of ordinary keys, with any names and descriptions. */
  function PadApplication(about: nat -> Application, group: nat): Application {
    about(group).(id := 8000 + group, external := false, deleted := false)
  }

  /** The i-th ordinary key, with any rules, addresses, dates and status. */
  function PadKey(about: nat -> Application, details: nat -> Credential, i: nat): Credential {
    details(i).(id := 119000000 + i, application := PadApplication(about, i / 12))
  }

  /** A store with one key more, the first of a dozen bringing the application. */
  function WithKey(s: State, key: Credential, application: Application, first: bool): State {
    State(s.current, s.credentials + [key], if first then s.applications + [application] else s.applications)
  }

  /** The store once the first n of some keys were added, a dozen to an application. */
  function Padded(s: State, n: nat, key: nat -> Credential, application: nat -> Application): State {
    if n == 0 then s
    else WithKey(Padded(s, n - 1, key, application), key(n - 1), application((n - 1) / 12), (n - 1) % 12 == 0)
  }

  /** A list with a number of items more, the i-th of them given by i. */
  ghost predicate Grown<T(!new)>(before: seq<T>, after: seq<T>, n: nat, item: nat -> T) {
    |after| == |before| + n && before <= after && forall i: nat :: i < n ==> after[|before| + i] == item(i)
  }

  /** The number of dozens that so many keys begin. */
  function Dozens(n: nat): nat {
    (n + 11) / 12
  }

  lemma OneKeyMore(n: nat)
    ensures n % 12 == 0 ==> Dozens(n) == n / 12 && Dozens(n + 1) == Dozens(n) + 1
    ensures n % 12 != 0 ==> Dozens(n + 1) == Dozens(n) && (n - 1) / 12 == n / 12
  {
  }

  lemma {:induction false} PaddedIs(s: State, n: nat, key: nat -> Credential, application: nat -> Application)
    ensures var t := Padded(s, n, key, application);
            && t.current == s.current
            && Grown(s.credentials, t.credentials, n, key)
            && Grown(s.applications, t.applications, Dozens(n), application)
  {
    if n > 0 {
      var m := n - 1;
      var before := Padded(s, m, key, application);
      PaddedIs(s, m, key, application);
      MorePadded(s, before, m, Dozens(m), key, application);
      OneKeyMore(m);
      assert Padded(s, n, key, application).credentials == before.credentials + [key(m)];
    }
  }

  lemma MorePadded(s: State, t: State, n: nat, dozens: nat, key: nat -> Credential, application: nat -> Application)
    requires Grown(s.credentials, t.credentials, n, key) && Grown(s.applications, t.applications, dozens, application)
    ensures Grown(s.credentials, t.credentials + [key(n)], n + 1, key)
    ensures Grown(s.applications, t.applications + [application(dozens)], dozens + 1, application)
  {
    GrownByOne(s.credentials, t.credentials, n, key);
    GrownByOne(s.applications, t.applications, dozens, application);
  }

  lemma GrownByOne<T(!new)>(before: seq<T>, after: seq<T>, n: nat, item: nat -> T)
    requires Grown(before, after, n, item)
    ensures Grown(before, after + [item(n)], n + 1, item)
  {
  }

  /** However many keys are added to a healthy store with none of their identifiers, it stays healthy. */
  lemma {:induction false} PaddedIsHealthy(s: State, n: nat, key: nat -> Credential, application: nat -> Application)
    requires Healthy(s) && forall c :: c in s.credentials ==> c.id < 119000000
    requires forall i: nat :: key(i).id == 119000000 + i && key(i).application == application(i / 12)
    ensures var t := Padded(s, n, key, application);
            && Healthy(t)
            && (forall c :: c in t.credentials ==> c.id < 119000000 + n)
            && (n > 0 ==> Holds(t.applications, application((n - 1) / 12).id))
  {
    if n > 0 {
      var m := n - 1;
      PaddedIsHealthy(s, m, key, application);
      OneKeyMore(m);
      WithKeyIsHealthy(Padded(s, m, key, application), key(m), application(m / 12), m % 12 == 0);
    }
  }

  lemma WithKeyIsHealthy(s: State, key: Credential, application: Application, first: bool)
    requires Healthy(s) && !Listed(s.credentials, key.id) && key.application == application
    requires first || Holds(s.applications, application.id)
    ensures Healthy(WithKey(s, key, application, first))
    ensures Holds(WithKey(s, key, application, first).applications, application.id)
  {
    if first {
      MoreApplicationsKeepHealthy(s, application);
      AddingKeepsHealthy(s.(applications := s.applications + [application]), key);
    } else {
      AddingKeepsHealthy(s, key);
    }
  }

  function PadApplications(about: nat -> Application): nat -> Application {
    (group: nat) => PadApplication(about, group)
  }

  function PadKeys(about: nat -> Application, details: nat -> Credential): nat -> Credential {
    (i: nat) => PadKey(about, details, i)
  }

  lemma PadIsHealthy(s: State, n: nat, about: nat -> Application, details: nat -> Credential)
    requires Healthy(s) && forall c :: c in s.credentials ==> c.id < 119000000
    ensures var t := Padded(s, n, PadKeys(about, details), PadApplications(about));
            && Healthy(t)
            && t.current == s.current
            && Grown(s.credentials, t.credentials, n, PadKeys(about, details))
            && Grown(s.applications, t.applications, Dozens(n), PadApplications(about))
  {
    PaddedIsHealthy(s, n, PadKeys(about, details), PadApplications(about));
    PaddedIs(s, n, PadKeys(about, details), PadApplications(about));
  }

  class Store {
    var current: Credential
    var credentials: seq<Credential>
    var applications: seq<Application>

    /** Every list of keys a caller can have read so far. */
    ghost var read: seq<seq<Credential>>

    ghost function Contents(): State
      reads this
    {
      State(current, credentials, applications)
    }

    ghost predicate Valid()
      reads this
    {
      Good(Contents(), read)
    }

    /** The store around an account in order, the invented one being such. */
    constructor (s: State)
      requires Healthy(s)
      ensures Valid() && Contents() == s && read == [s.credentials]
    {
      current, credentials, applications := s.current, s.credentials, s.applications;
      read := [s.credentials];
    }

    /** A key of the account is read back as it is listed, those of one status when one is named. */
    method List(status: Option<Status>) returns (out: seq<Credential>)
      ensures status.None? ==> out == credentials
      ensures status.Some? ==> out == InStatus(credentials, status.value)
    {
      out := [];
      assert credentials[..0] == [];
      for i := 0 to |credentials|
        invariant status.None? ==> out == credentials[..i]
        invariant status.Some? ==> out == InStatus(credentials[..i], status.value)
      {
        assert credentials[..i + 1][..i] == credentials[..i];
        if status.None? || credentials[i].status == status.value {
          out := out + [credentials[i]];
        }
      }
      assert credentials[..|credentials|] == credentials;
    }

    method Get(id: int) returns (found: Option<Credential>)
      ensures found.Some? ==> found.value in credentials && found.value.id == id
      ensures found.None? ==> !Listed(credentials, id)
    {
      for i := 0 to |credentials|
        invariant forall j :: 0 <= j < i ==> credentials[j].id != id
      {
        if credentials[i].id == id {
          return Some(credentials[i]);
        }
      }
      return None;
    }

    method RevokeAgainst(identity: Credential, id: int) returns (error: Option<Kind>)
      requires Valid() && identity.id == current.id
      modifies this`credentials, this`read
      ensures Valid() && Contents() == Dropped(old(Contents()), id) && old(read) <= read
      ensures error == if id == current.id then Some(SelfRevocation)
                       else if Listed(old(credentials), id) then None else Some(NotFound)
    {
      if identity.id == id {
        return Some(SelfRevocation);
      }
      ApplyKeepsGood(Contents(), read, Revoking(id), []);
      WithoutIsShorter(credentials, id);
      var before := |credentials|;
      credentials := Without(credentials, id);
      read := read + [credentials];
      if |credentials| == before {
        return Some(NotFound);
      }
      return None;
    }

    method Revoke(id: int) returns (error: Option<Kind>)
      requires Valid()
      modifies this`credentials, this`read
      ensures Valid() && Contents() == Dropped(old(Contents()), id) && old(read) <= read
      ensures error == if id == current.id then Some(SelfRevocation)
                       else if Listed(old(credentials), id) then None else Some(NotFound)
    {
      error := RevokeAgainst(current, id);
    }

    method SetAddresses(id: int, allowed: seq<Prefix>) returns (error: Option<Kind>)
      requires Valid()
      modifies this`current, this`credentials, this`read
      ensures Valid() && Contents() == Addressed(old(Contents()), id, allowed) && old(read) <= read
      ensures error == if Listed(old(credentials), id) then None else Some(NotFound)
    {
      ApplyKeepsGood(Contents(), read, Addressing(id, allowed), []);
      for i := 0 to |credentials|
        invariant credentials == old(credentials) && current == old(current) && read == old(read)
        invariant forall j :: 0 <= j < i ==> credentials[j].id != id
      {
        if credentials[i].id == id {
          WithAddressesAt(credentials, i, allowed);
          credentials := credentials[i := credentials[i].(allowed := allowed)];
          if id == current.id {
            current := current.(allowed := allowed);
          }
          read := read + [credentials];
          return None;
        }
      }
      assert WithAddresses(credentials, id, allowed) == credentials;
      return Some(NotFound);
    }

    /** A deletion decided by any list of keys read before, every status in it. */
    method DeleteApplicationAgainst(listing: seq<Credential>, app: int) returns (error: Option<Kind>)
      requires Valid() && listing in read
      modifies this`applications, this`read
      ensures Valid() && Contents() == Deleted(old(Contents()), listing, app) && old(read) <= read
      ensures error == if Names(listing, app) then Some(ApplicationInUse)
                       else if Holds(old(applications), app) then None else Some(NotFound)
    {
      for i := 0 to |listing|
        invariant forall j :: 0 <= j < i ==> listing[j].application.id != app
      {
        if listing[i].application.id == app {
          return Some(ApplicationInUse);
        }
      }
      ApplyKeepsGood(Contents(), read, Deleting(0, app), listing);
      WithoutIsShorterToo(applications, app);
      var before := |applications|;
      applications := WithoutApplication(applications, app);
      read := read + [credentials];
      if |applications| == before {
        return Some(NotFound);
      }
      return None;
    }

    method DeleteApplication(app: int) returns (error: Option<Kind>)
      requires Valid()
      modifies this`applications, this`read
      ensures Valid() && Contents() == Deleted(old(Contents()), credentials, app) && old(read) <= read
      ensures error == if Names(credentials, app) then Some(ApplicationInUse)
                       else if Holds(old(applications), app) then None else Some(NotFound)
    {
      var listing := List(None);
      error := DeleteApplicationAgainst(listing, app);
    }

    /** Any number of ordinary keys, added before anything was read. */
    method Pad(n: nat, about: nat -> Application, details: nat -> Credential)
      requires Valid() && read == [credentials]
      requires forall c :: c in credentials ==> c.id < 119000000
      modifies this`credentials, this`applications, this`read
      ensures Valid() && read == [credentials]
      ensures current == old(current)
      ensures Grown(old(credentials), credentials, n, PadKeys(about, details))
      ensures Grown(old(applications), applications, Dozens(n), PadApplications(about))
    {
      PadIsHealthy(Contents(), n, about, details);
      AddKeys(n, PadKeys(about, details), PadApplications(about));
      read := [credentials];
    }

    method AddKeys(n: nat, key: nat -> Credential, application: nat -> Application)
      modifies this`credentials, this`applications
      ensures Contents() == Padded(old(Contents()), n, key, application)
    {
      for i := 0 to n
        invariant Contents() == Padded(old(Contents()), i, key, application)
      {
        if i % 12 == 0 {
          applications := applications + [application(i / 12)];
        }
        credentials := credentials + [key(i)];
      }
    }
  }

  /** Under identifiers that tell keys apart, changing the one found changes all there is to change. */
  lemma WithAddressesAt(cs: seq<Credential>, i: nat, allowed: seq<Prefix>)
    requires Unique(cs) && i < |cs|
    ensures cs[i := cs[i].(allowed := allowed)] == WithAddresses(cs, cs[i].id, allowed)
  {
    forall j | 0 <= j < |cs| && j != i ensures cs[j].id != cs[i].id {
      assert if i < j then cs[i].id != cs[j].id else cs[j].id != cs[i].id;
    }
  }

  lemma {:induction false} WithoutIsShorter(cs: seq<Credential>, id: int)
    ensures |Without(cs, id)| <= |cs|
    ensures |Without(cs, id)| == |cs| <==> !Listed(cs, id)
  {
    if cs != [] {
      WithoutIsShorter(cs[1..], id);
    }
  }

  lemma {:induction false} WithoutIsShorterToo(apps: seq<Application>, id: int)
    ensures |WithoutApplication(apps, id)| <= |apps|
    ensures |WithoutApplication(apps, id)| == |apps| <==> !Holds(apps, id)
  {
    if apps != [] {
      WithoutIsShorterToo(apps[1..], id);
      assert forall i :: 1 <= i < |apps| ==> apps[i] == apps[1..][i - 1];
    }
  }
}
