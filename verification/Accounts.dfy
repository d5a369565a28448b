/** The account at the API, the writes that can reach it, and what every run of guarded writes
    keeps (internal/legacy/provider.go, internal/httpapi/addresses.go). */
module Accounts {
  import opened Text
  import opened Net
  import opened Credentials

  datatype Account = Account(credentials: seq<Credential>, applications: set<int>)

  /** A write as it leaves the tool, with what its guard was decided from: the identity read for
      it, or the listing read at an earlier moment, and how many keys that listing could not read. */
  datatype Write =
    | DeleteKey(identity: int, id: int)
    | DeleteApplication(read: nat, listing: seq<Credential>, unreadable: nat, app: int)
    | SetAddresses(identity: int, id: int, allowed: seq<Prefix>)

  // What a write does

  function Without(cs: seq<Credential>, id: int): (rest: seq<Credential>)
    ensures forall c :: c in rest <==> c in cs && c.id != id
  {
    if cs == [] then [] else (if cs[0].id == id then [] else [cs[0]]) + Without(cs[1..], id)
  }

  /** The keys left follow each other as they did. */
  lemma {:induction false} WithoutInOrder(a: seq<Credential>, b: seq<Credential>, id: int)
    ensures Without(a + b, id) == Without(a, id) + Without(b, id)
    ensures |a| == 1 ==> Without(a, id) == if a[0].id == id then [] else a
  {
    if a == [] {
      assert a + b == b;
    } else {
      assert (a + b)[1..] == a[1..] + b;
      WithoutInOrder(a[1..], b, id);
      Regrouped(if a[0].id == id then [] else [a[0]], Without(a[1..], id), Without(b, id));
    }
  }

  function WithAddresses(cs: seq<Credential>, id: int, allowed: seq<Prefix>): seq<Credential> {
    seq(|cs|, i requires 0 <= i < |cs| => if cs[i].id == id then cs[i].(allowed := allowed) else cs[i])
  }

  /** Deleting an application stops its keys, which stay listed. */
  function WithDeleted(cs: seq<Credential>, app: int): seq<Credential> {
    seq(|cs|, i requires 0 <= i < |cs| =>
      if cs[i].application.id == app then cs[i].(application := cs[i].application.(deleted := true)) else cs[i])
  }

  function After(a: Account, w: Write): Account {
    match w
    case DeleteKey(_, id) => a.(credentials := Without(a.credentials, id))
    case DeleteApplication(_, _, _, app) => Account(WithDeleted(a.credentials, app), a.applications - {app})
    case SetAddresses(_, id, allowed) => a.(credentials := WithAddresses(a.credentials, id, allowed))
  }

  /** A deletion takes its key away and no other; new addresses replace those of their key and nothing
      else; an application goes with its keys stopped, and every other key stays as it is. */
  lemma WritesReachTheirTarget(a: Account, w: Write)
    ensures var b := After(a, w);
            match w
            case DeleteKey(_, id) =>
              && b.applications == a.applications
              && forall c :: c in b.credentials <==> c in a.credentials && c.id != id
            case SetAddresses(_, id, allowed) =>
              && b.applications == a.applications && |b.credentials| == |a.credentials|
              && forall i :: 0 <= i < |a.credentials| ==>
                   var c, d := a.credentials[i], b.credentials[i];
                   d.(allowed := c.allowed) == c && d.allowed == if c.id == id then allowed else c.allowed
            case DeleteApplication(_, _, _, app) =>
              && (forall x :: x in b.applications <==> x in a.applications && x != app)
              && |b.credentials| == |a.credentials|
              && forall i :: 0 <= i < |a.credentials| ==>
                   var c, d := a.credentials[i], b.credentials[i];
                   if c.application.id == app
                   then d.application.deleted && d.(application := c.application) == c
                        && d.application.(deleted := c.application.deleted) == c.application
                   else d == c
  {
  }

  // What a write is let through on

  predicate LetsIn(allowed: seq<Prefix>, home: Addr) {
    allowed == [] || Covers(allowed, home)
  }

  predicate Names(cs: seq<Credential>, app: int) {
    exists i :: 0 <= i < |cs| && cs[i].application.id == app
  }

  /** The guards, where own is the key the tool authenticates with and home the address it is seen from. */
  predicate Guarded(w: Write, own: int, home: Addr) {
    match w
    case DeleteKey(identity, id) => identity == own && id != identity
    case DeleteApplication(_, listing, _, app) => !Names(listing, app)
    case SetAddresses(identity, id, allowed) => identity == own && (id != identity || LetsIn(allowed, home))
  }

  /** A listing of the keys, in their order, that leaves out no more than a number of them. */
  predicate Partial(listing: seq<Credential>, cs: seq<Credential>, unreadable: nat) {
    if cs == [] then listing == []
    else (listing != [] && listing[0] == cs[0] && Partial(listing[1..], cs[1..], unreadable))
         || (unreadable > 0 && Partial(listing, cs[1..], unreadable - 1))
  }

  /** One step of an account: a write of the tool, carried out or not, or anything done elsewhere. */
  datatype Step = Ours(write: Write) | Elsewhere

  /** The tool's writes are guarded, and each listing was read from the account at an earlier moment. */
  ghost predicate Run(history: seq<Account>, steps: seq<Step>, own: int, home: Addr) {
    && |history| == |steps| + 1
    && forall i :: 0 <= i < |steps| && steps[i].Ours? ==> OurStep(history, i, steps[i].write, own, home)
  }

  ghost predicate OurStep(history: seq<Account>, i: nat, w: Write, own: int, home: Addr)
    requires i + 1 < |history|
  {
    && Guarded(w, own, home)
    && (history[i + 1] == history[i] || history[i + 1] == After(history[i], w))
    && (w.DeleteApplication? ==> w.read <= i && Partial(w.listing, history[w.read].credentials, w.unreadable))
  }

  // What every run keeps

  predicate Unique(cs: seq<Credential>) {
    forall i, j :: 0 <= i < j < |cs| ==> cs[i].id != cs[j].id
  }

  /** The tool's own key is listed on an application that exists, and its addresses let the tool in. */
  predicate Alive(a: Account, own: int, home: Addr, app: int) {
    app in a.applications
    && exists c :: c in a.credentials && c.id == own
                   && c.application.id == app && !c.application.deleted && LetsIn(c.allowed, home)
  }

  /** Nothing done elsewhere ends the tool's own key. */
  ghost predicate Spared(history: seq<Account>, steps: seq<Step>, own: int, home: Addr, app: int)
    requires |history| == |steps| + 1
  {
    forall i :: 0 <= i < |steps| && steps[i].Elsewhere? && Alive(history[i], own, home, app)
                ==> Alive(history[i + 1], own, home, app)
  }

  /** Every key with the application it stands on. */
  function Standing(cs: seq<Credential>): set<(int, int)> {
    set c | c in cs :: (c.id, c.application.id)
  }

  /** Keys are only ever dropped: each one was there before, under the same application. */
  predicate Shrinks(before: seq<Credential>, after: seq<Credential>) {
    Standing(after) <= Standing(before)
  }

  lemma {:induction false} CompleteListing(listing: seq<Credential>, cs: seq<Credential>)
    requires Partial(listing, cs, 0)
    ensures listing == cs
  {
    if cs != [] {
      CompleteListing(listing[1..], cs[1..]);
      assert listing == [listing[0]] + listing[1..] && cs == [cs[0]] + cs[1..];
    }
  }

  lemma WriteShrinks(a: Account, w: Write)
    ensures Shrinks(a.credentials, After(a, w).credentials)
  {
    var before, after := a.credentials, After(a, w).credentials;
    forall c | c in after ensures (c.id, c.application.id) in Standing(before) {
      if !w.DeleteKey? {
        var i :| 0 <= i < |after| && after[i] == c;
        assert before[i] in before;
      }
    }
  }

  lemma WriteKeepsAlive(a: Account, w: Write, own: int, home: Addr, app: int)
    requires Alive(a, own, home, app) && Guarded(w, own, home)
    requires w.DeleteApplication? ==> w.app != app
    ensures Alive(After(a, w), own, home, app)
  {
    var b := After(a, w);
    var i :| 0 <= i < |a.credentials| && a.credentials[i].id == own && a.credentials[i].application.id == app
             && !a.credentials[i].application.deleted && LetsIn(a.credentials[i].allowed, home);
    var c := a.credentials[i];
    match w
    case DeleteKey(_, _) =>
      assert c in b.credentials;
    case DeleteApplication(_, _, _, _) =>
      assert b.credentials[i] == c;
    case SetAddresses(_, id, allowed) =>
      assert b.credentials[i] == if c.id == id then c.(allowed := allowed) else c;
      assert b.credentials[i] in b.credentials;
  }

  predicate CompleteListings(steps: seq<Step>) {
    forall i :: 0 <= i < |steps| && steps[i].Ours? && steps[i].write.DeleteApplication?
                ==> steps[i].write.unreadable == 0
  }

  /** A listing that holds the own key guards the application it is on. */
  lemma GuardSparesItsOwn(a: Account, w: Write, own: int, home: Addr, app: int)
    requires Alive(a, own, home, app) && w.DeleteApplication? && w.unreadable == 0
    requires Partial(w.listing, a.credentials, w.unreadable) && Guarded(w, own, home)
    ensures w.app != app
  {
    CompleteListing(w.listing, a.credentials);
    var c :| c in a.credentials && c.id == own && c.application.id == app;
    var k :| 0 <= k < |w.listing| && w.listing[k] == c;
  }

  /** Over every run on complete listings, whatever happens to the account elsewhere, the tool's own
      key stays alive as long as nothing done there ends it. */
  lemma {:induction false} RunKeepsAlive(history: seq<Account>, steps: seq<Step>, own: int, home: Addr, app: int,
                                         i: nat)
    requires Run(history, steps, own, home) && i < |history|
    requires CompleteListings(steps) && Spared(history, steps, own, home, app)
    requires Alive(history[0], own, home, app)
    ensures Alive(history[i], own, home, app)
  {
    if i > 0 {
      RunKeepsAlive(history, steps, own, home, app, i - 1);
      if steps[i - 1].Ours? {
        var w := steps[i - 1].write;
        assert OurStep(history, i - 1, w, own, home);
        if w.DeleteApplication? {
          RunKeepsAlive(history, steps, own, home, app, w.read);
          GuardSparesItsOwn(history[w.read], w, own, home, app);
        }
        WriteKeepsAlive(history[i - 1], w, own, home, app);
      }
    }
  }

  // What becomes of the other keys

  /** Issued elsewhere on the application after a moment, and there ever since. */
  ghost predicate IssuedSince(history: seq<Account>, steps: seq<Step>, first: nat, last: nat, app: int)
    requires |history| == |steps| + 1 && last < |history|
  {
    exists k: nat, id :: Issued(history, steps, first, last, app, k, id)
  }

  ghost predicate Issued(history: seq<Account>, steps: seq<Step>, first: nat, last: nat, app: int, k: nat, id: int)
    requires |history| == |steps| + 1 && last < |history|
  {
    && first <= k < last && steps[k].Elsewhere?
    && (id, app) !in Standing(history[k].credentials)
    && forall j :: k < j <= last ==> (id, app) in Standing(history[j].credentials)
  }

  /** A key that was not there at first and is at last was issued elsewhere in between. */
  lemma {:induction false} KeysComeFromElsewhere(history: seq<Account>, steps: seq<Step>, own: int, home: Addr,
                                                 first: nat, last: nat, app: int, id: int)
    returns (k: nat)
    requires Run(history, steps, own, home) && first <= last < |history|
    requires (id, app) !in Standing(history[first].credentials) && (id, app) in Standing(history[last].credentials)
    ensures Issued(history, steps, first, last, app, k, id)
    decreases last
  {
    if (id, app) in Standing(history[last - 1].credentials) {
      k := KeysComeFromElsewhere(history, steps, own, home, first, last - 1, app, id);
    } else {
      k := last - 1;
      if steps[k].Ours? {
        assert OurStep(history, k, steps[k].write, own, home);
        WriteShrinks(history[k], steps[k].write);
        assert false;
      }
    }
  }

  /** An application deleted on a complete listing, however old, is named by a key there is if and
      only if one was issued on it elsewhere since the listing was read, and was kept. */
  lemma DeletionMissesExactly(history: seq<Account>, steps: seq<Step>, own: int, home: Addr, i: nat)
    requires Run(history, steps, own, home) && i < |steps| && steps[i].Ours?
    requires steps[i].write.DeleteApplication? && steps[i].write.unreadable == 0
    ensures var w := steps[i].write;
            Names(history[i].credentials, w.app) <==> IssuedSince(history, steps, w.read, i, w.app)
  {
    var w, cs := steps[i].write, history[i].credentials;
    assert OurStep(history, i, w, own, home);
    CompleteListing(w.listing, history[w.read].credentials);
    if Names(cs, w.app) {
      var n :| 0 <= n < |cs| && cs[n].application.id == w.app;
      assert cs[n] in cs && (cs[n].id, w.app) in Standing(cs);
      StandingNames(w.listing, cs[n].id, w.app);
      var k := KeysComeFromElsewhere(history, steps, own, home, w.read, i, w.app, cs[n].id);
    }
    if k: nat, id :| Issued(history, steps, w.read, i, w.app, k, id) {
      StandingNames(cs, id, w.app);
    }
  }

  lemma StandingNames(cs: seq<Credential>, id: int, app: int)
    ensures (id, app) in Standing(cs) ==> Names(cs, app)
  {
    if (id, app) in Standing(cs) {
      var c :| c in cs && (c.id, c.application.id) == (id, app);
      var n :| 0 <= n < |cs| && cs[n] == c;
    }
  }

  /** A write of the tool on complete listings changes a key in nothing but its addresses, unless it
      deletes that key, or an application on which a key was issued elsewhere since the listing. */
  lemma OnlyItsOwnDeletionEndsAKey(history: seq<Account>, steps: seq<Step>, own: int, home: Addr, i: nat, c: Credential)
    requires Run(history, steps, own, home) && i < |steps| && steps[i].Ours?
    requires CompleteListings(steps)
    requires c in history[i].credentials
    ensures var w := steps[i].write;
            || (exists d :: d in history[i + 1].credentials && d == c.(allowed := d.allowed))
            || w == DeleteKey(own, c.id)
            || (w.DeleteApplication? && w.app == c.application.id && IssuedSince(history, steps, w.read, i, w.app))
  {
    var k :| 0 <= k < |history[i].credentials| && history[i].credentials[k] == c;
    var w := steps[i].write;
    assert OurStep(history, i, w, own, home);
    if history[i + 1] == history[i] {
      assert c == c.(allowed := c.allowed);
    } else if w.DeleteKey? {
      if w.id != c.id {
        assert c in history[i + 1].credentials && c == c.(allowed := c.allowed);
      }
    } else if w.DeleteApplication? && w.app == c.application.id {
      DeletionMissesExactly(history, steps, own, home, i);
    } else {
      var d := history[i + 1].credentials[k];
      assert d in history[i + 1].credentials && d == c.(allowed := d.allowed);
    }
  }

  /** Keys are only ever dropped elsewhere, or issued there too. */
  ghost predicate OthersMay(history: seq<Account>, steps: seq<Step>, issue: bool)
    requires |history| == |steps| + 1
  {
    issue || forall i :: 0 <= i < |steps| && steps[i].Elsewhere?
                         ==> Shrinks(history[i].credentials, history[i + 1].credentials)
  }

  /** No application is deleted that some key names. */
  ghost predicate DeletesUnused(history: seq<Account>, steps: seq<Step>)
    requires |history| == |steps| + 1
  {
    forall i :: 0 <= i < |steps| && steps[i].Ours? && steps[i].write.DeleteApplication?
                ==> !Names(history[i].credentials, steps[i].write.app)
  }

  /** The guard on complete listings keeps every named application in every run if and only if no key
      is issued elsewhere. */
  lemma NamedApplicationsAreSafeExactly(issue: bool, home: Addr)
    ensures (forall history: seq<Account>, steps: seq<Step>, own: int ::
               Run(history, steps, own, home) && CompleteListings(steps) && OthersMay(history, steps, issue)
               ==> DeletesUnused(history, steps))
            <==> !issue
  {
    if issue {
      AKeyIssuedMeanwhileEnds(home);
      var history, steps := Meanwhile().0, Meanwhile().1;
      assert steps[1].Ours? && Names(history[1].credentials, steps[1].write.app);
      assert !DeletesUnused(history, steps);
    } else {
      forall history: seq<Account>, steps: seq<Step>, own: int
        | Run(history, steps, own, home) && CompleteListings(steps) && OthersMay(history, steps, false)
        ensures DeletesUnused(history, steps)
      {
        forall i | 0 <= i < |steps| && steps[i].Ours? && steps[i].write.DeleteApplication?
          ensures !Names(history[i].credentials, steps[i].write.app)
        {
          DeletionMissesExactly(history, steps, own, home, i);
          NothingIssued(history, steps, steps[i].write.read, i, steps[i].write.app);
        }
      }
    }
  }

  lemma NothingIssued(history: seq<Account>, steps: seq<Step>, first: nat, last: nat, app: int)
    requires |history| == |steps| + 1 && last < |history| && OthersMay(history, steps, false)
    ensures !IssuedSince(history, steps, first, last, app)
  {
    forall k: nat, id ensures !Issued(history, steps, first, last, app, k, id) {
      if first <= k < last && steps[k].Elsewhere? {
        assert Shrinks(history[k].credentials, history[k + 1].credentials);
        assert (id, app) !in Standing(history[k].credentials) ==> (id, app) !in Standing(history[k + 1].credentials);
      }
    }
  }

  // What a partial listing is worth

  /** More than every identifier of a list, of its keys and of their applications, and than zero. */
  function Beyond(cs: seq<Credential>): (n: int)
    ensures n > 0 && forall i :: 0 <= i < |cs| ==> cs[i].id < n && cs[i].application.id < n
  {
    if cs == [] then 1
    else
      var rest := Beyond(cs[1..]);
      assert forall i :: 1 <= i < |cs| ==> cs[i] == cs[1..][i - 1];
      var one := if cs[0].id < cs[0].application.id then cs[0].application.id else cs[0].id;
      if one < rest then rest else one + 1
  }

  function Key(id: int, app: int): Credential {
    Credential(id, Application(app, "", "", "", false, false), Validated, [], [], None, None, None, false)
  }

  /** Keys with identifiers of their own, all on one application. */
  function Unread(first: int, app: int, n: nat): (cs: seq<Credential>)
    ensures |cs| == n && forall i :: 0 <= i < n ==> cs[i] == Key(first + i, app)
  {
    seq(n, i requires i >= 0 => Key(first + i, app))
  }

  lemma {:induction false} PartialBefore(listing: seq<Credential>, unread: seq<Credential>)
    ensures Partial(listing, listing + unread, |unread|)
  {
    var cs := listing + unread;
    if listing != [] {
      PartialBefore(listing[1..], unread);
      assert cs[1..] == listing[1..] + unread;
    } else if unread != [] {
      PartialBefore([], unread[1..]);
      assert cs[1..] == [] + unread[1..];
    }
  }

  /** Passing the guard on a listing protects the keys of every account that listing can come from
      exactly when the listing left no key out. */
  lemma GuardNeedsCompleteListing(listing: seq<Credential>, unreadable: nat)
    requires Unique(listing)
    ensures (forall cs: seq<Credential>, app: int ::
               Unique(cs) && app != 0 && Partial(listing, cs, unreadable) && !Names(listing, app) ==> !Names(cs, app))
            <==> unreadable == 0
  {
    if unreadable == 0 {
      forall cs: seq<Credential> | Partial(listing, cs, 0) ensures cs == listing {
        CompleteListing(listing, cs);
      }
    } else {
      var app := Beyond(listing);
      var unread := Unread(app, app, unreadable);
      var cs := listing + unread;
      PartialBefore(listing, unread);
      assert cs[|listing|].application.id == app;
      assert Unique(cs) && Names(cs, app) && !Names(listing, app);
    }
  }

  /** One unread key is enough: it is the tool's own, its application looks unused on a listing that
      read the other, and the guarded deletion of that application ends the tool. */
  lemma OneUnreadKeyEndsTheTool(home: Addr)
    ensures var before := Account([Key(1, 7), Key(2, 8)], {7, 8});
            var w := DeleteApplication(0, [Key(2, 8)], 1, 7);
            Run([before, After(before, w)], [Ours(w)], 1, home) && Unique(before.credentials)
            && Alive(before, 1, home, 7) && !Alive(After(before, w), 1, home, 7)
  {
    var own, other := Key(1, 7), Key(2, 8);
    var before := Account([own, other], {7, 8});
    var listing := [other];
    assert [own, other][1..] == listing && listing[1..] == [];
    assert Partial([], [], 1) && Partial(listing, listing, 0);
    assert own in before.credentials;
    var w := DeleteApplication(0, listing, 1, 7);
    assert OurStep([before, After(before, w)], 0, w, 1, home);
  }

  /** No deletion goes by a listing with more unread keys than that. */
  predicate ShortByAtMost(steps: seq<Step>, unread: nat) {
    forall i :: 0 <= i < |steps| && steps[i].Ours? && steps[i].write.DeleteApplication?
                ==> steps[i].write.unreadable <= unread
  }

  /** Every run in which nothing done elsewhere ends the own key keeps it alive if and only if no
      listing may leave a key out. */
  lemma RunsNeedCompleteListings(unread: nat, home: Addr)
    ensures (forall history: seq<Account>, steps: seq<Step>, own: int, app: int ::
               Run(history, steps, own, home) && ShortByAtMost(steps, unread) && Spared(history, steps, own, home, app)
               && Unique(history[0].credentials) && Alive(history[0], own, home, app)
               ==> Alive(history[|steps|], own, home, app))
            <==> unread == 0
  {
    if unread == 0 {
      forall history: seq<Account>, steps: seq<Step>, own: int, app: int
        | Run(history, steps, own, home) && ShortByAtMost(steps, 0) && Spared(history, steps, own, home, app)
          && Alive(history[0], own, home, app)
        ensures Alive(history[|steps|], own, home, app)
      {
        RunKeepsAlive(history, steps, own, home, app, |steps|);
      }
    } else {
      OneUnreadKeyEndsTheTool(home);
      var before := Account([Key(1, 7), Key(2, 8)], {7, 8});
      var w := DeleteApplication(0, [Key(2, 8)], 1, 7);
      var history, steps := [before, After(before, w)], [Ours(w)];
      assert ShortByAtMost(steps, unread) && Spared(history, steps, 1, home, 7);
      assert history[0] == before && history[|steps|] == After(before, w);
    }
  }

  // What a listing is worth once keys are issued elsewhere

  /** A complete listing of one key, another key issued elsewhere, and the deletion of the application
      that one is on, which the listing does not name. */
  function Meanwhile(): (seq<Account>, seq<Step>) {
    var first := Account([Key(1, 7)], {7, 8});
    var second := Account([Key(1, 7), Key(2, 8)], {7, 8});
    var w := DeleteApplication(0, [Key(1, 7)], 0, 8);
    ([first, second, After(second, w)], [Elsewhere, Ours(w)])
  }

  /** The guard lets it through, and the key issued meanwhile is dead. */
  lemma AKeyIssuedMeanwhileEnds(home: Addr)
    ensures var history, steps := Meanwhile().0, Meanwhile().1;
            Run(history, steps, 1, home) && CompleteListings(steps) && Spared(history, steps, 1, home, 7)
            && Alive(history[0], 1, home, 7) && Key(2, 8) in history[1].credentials
            && forall c :: c in history[2].credentials && c.id == 2 ==> c.application.deleted
  {
    var history, steps := Meanwhile().0, Meanwhile().1;
    var w := steps[1].write;
    assert w.listing[0] == Key(1, 7) && history[0].credentials[1..] == [] && w.listing[1..] == [];
    assert OurStep(history, 1, w, 1, home);
    assert history[1].credentials[0] == Key(1, 7) && history[1].credentials[1] == Key(2, 8);
    assert Key(1, 7) in history[0].credentials && Key(1, 7) in history[1].credentials;
  }
}
