/** Publishing a refreshed catalogue and waiting for the first one, under every interleaving of
    refreshes and readers (internal/catalog/remote.go). */
module Refreshing {
  import opened Credentials
  import opened Catalogue

  /** A refresh fetches, then publishes or gives up, then closes ready on its way out. */
  datatype Refresher = Fetching | Fetched(result: Option<Snapshot>) | Leaving(succeeded: bool) | Left(succeeded: bool)

  /** A reader waits for ready, for its own deadline or for its own timer, then reads. */
  datatype Reader = Waiting | Released | Served(snapshot: Snapshot)

  /** closedBy says how the refresh that closed ready went. */
  datatype Remote = Remote(
    fallback: Snapshot,
    current: Snapshot,
    ready: bool,
    closes: nat,
    closedBy: Option<bool>,
    refreshers: seq<Refresher>,
    readers: seq<Reader>)

  function Initial(fallback: Snapshot): Remote {
    var dated := fallback.(live := false);
    Remote(dated, dated, false, 0, None, [], [])
  }

  datatype Step =
    | Begin
    | Answer(refresher: nat, branches: seq<string>, schemas: seq<Option<seq<Route>>>, result: Option<Snapshot>)
    | Publish(refresher: nat)
    | GiveUp(refresher: nat)
    | Close(refresher: nat)
    | Arrive
    | Release(reader: nat, timedOut: bool)
    | Serve(reader: nat)

  /** What a fetch can answer with: nothing, or a catalogue built from every branch. */
  ghost predicate Enabled(m: Remote, s: Step) {
    match s
    case Begin => true
    case Answer(r, branches, schemas, result) =>
      r < |m.refreshers| && m.refreshers[r].Fetching?
      && (result.Some? ==> IsComplete(result.value, branches, schemas))
    case Publish(r) => r < |m.refreshers| && m.refreshers[r].Fetched? && m.refreshers[r].result.Some?
    case GiveUp(r) => r < |m.refreshers| && m.refreshers[r].Fetched? && m.refreshers[r].result.None?
    case Close(r) => r < |m.refreshers| && m.refreshers[r].Leaving?
    case Arrive => true
    case Release(i, timedOut) => i < |m.readers| && m.readers[i].Waiting? && (m.ready || timedOut)
    case Serve(i) => i < |m.readers| && m.readers[i].Released?
  }

  ghost function Apply(m: Remote, s: Step): Remote
    requires Enabled(m, s)
  {
    match s
    case Begin => m.(refreshers := m.refreshers + [Fetching])
    case Answer(r, _, _, result) => m.(refreshers := m.refreshers[r := Fetched(result)])
    case Publish(r) =>
      m.(current := m.refreshers[r].result.value, refreshers := m.refreshers[r := Leaving(true)])
    case GiveUp(r) => m.(refreshers := m.refreshers[r := Leaving(false)])
    case Close(r) =>
      var succeeded := m.refreshers[r].succeeded;
      var left := m.(refreshers := m.refreshers[r := Left(succeeded)]);
      if m.ready then left else left.(ready := true, closes := m.closes + 1, closedBy := Some(succeeded))
    case Arrive => m.(readers := m.readers + [Waiting])
    case Release(i, _) => m.(readers := m.readers[i := Released])
    case Serve(i) => m.(readers := m.readers[i := Served(m.current)])
  }

  ghost predicate Complete(s: Snapshot) {
    exists branches, schemas :: IsComplete(s, branches, schemas)
  }

  /** Either the embedded copy, marked as such, or a whole catalogue. */
  ghost predicate Publishable(m: Remote, s: Snapshot) {
    (s == m.fallback && !s.live) || Complete(s)
  }

  ghost predicate Inv(m: Remote) {
    && !m.fallback.live
    && Publishable(m, m.current)
    && m.closes == (if m.ready then 1 else 0)
    && (m.ready <==> m.closedBy.Some?)
    && (m.closedBy == Some(true) ==> m.current.live)
    && (forall r :: 0 <= r < |m.refreshers| ==>
          match m.refreshers[r]
          case Fetching => true
          case Fetched(result) => result.Some? ==> Complete(result.value)
          case Leaving(succeeded) => succeeded ==> m.current.live
          case Left(succeeded) => m.ready && (succeeded ==> m.current.live))
    && (forall i :: 0 <= i < |m.readers| && m.readers[i].Served? ==> Publishable(m, m.readers[i].snapshot))
  }

  lemma InitialIsFine(fallback: Snapshot)
    ensures Inv(Initial(fallback))
  {
  }

  /** Every step keeps the invariant, and a live catalogue is only ever replaced by a live one. */
  lemma StepKeepsInv(m: Remote, s: Step)
    requires Inv(m) && Enabled(m, s)
    ensures Inv(Apply(m, s))
    ensures m.current.live ==> Apply(m, s).current.live
    ensures m.ready ==> Apply(m, s).ready && Apply(m, s).closedBy == m.closedBy
    ensures Apply(m, s).fallback == m.fallback
  {
    var n := Apply(m, s);
    assert n.fallback == m.fallback;
    if s.Publish? {
      assert Complete(n.current) && n.current.live;
    } else {
      assert n.current == m.current;
    }
    if s.Answer? && s.result.Some? {
      assert Complete(s.result.value);
    }
    forall i | 0 <= i < |n.readers| && n.readers[i].Served? ensures Publishable(n, n.readers[i].snapshot) {
      if s.Serve? && i == s.reader {
        assert n.readers[i].snapshot == m.current;
      } else {
        assert i < |m.readers| && n.readers[i] == m.readers[i];
      }
    }
    forall r | 0 <= r < |n.refreshers|
      ensures match n.refreshers[r]
              case Fetching => true
              case Fetched(result) => result.Some? ==> Complete(result.value)
              case Leaving(succeeded) => succeeded ==> n.current.live
              case Left(succeeded) => n.ready && (succeeded ==> n.current.live)
    {
      assert r < |m.refreshers| && n.refreshers[r] == m.refreshers[r] ==>
        (n.refreshers[r].Left? ==> m.ready);
    }
  }

  ghost predicate Run(states: seq<Remote>, steps: seq<Step>) {
    && |states| == |steps| + 1
    && forall i :: 0 <= i < |steps| ==> Enabled(states[i], steps[i]) && states[i + 1] == Apply(states[i], steps[i])
  }

  /** Over every run: what is published and what any reader was served is the embedded copy marked
      as not live or a whole catalogue, and ready is closed at most once. */
  lemma {:induction false} RunKeepsInv(states: seq<Remote>, steps: seq<Step>, fallback: Snapshot, i: nat)
    requires Run(states, steps) && states[0] == Initial(fallback) && i < |states|
    ensures Inv(states[i]) && states[i].closes <= 1
    ensures states[i].fallback == fallback.(live := false)
  {
    if i == 0 {
      InitialIsFine(fallback);
    } else {
      RunKeepsInv(states, steps, fallback, i - 1);
      StepKeepsInv(states[i - 1], steps[i - 1]);
    }
  }

  /** Once live, always live; once closed, closed for good by the same refresh. */
  lemma {:induction false} LiveStays(states: seq<Remote>, steps: seq<Step>, fallback: Snapshot, i: nat, j: nat)
    requires Run(states, steps) && states[0] == Initial(fallback) && i <= j < |states|
    ensures states[i].current.live ==> states[j].current.live
    ensures states[i].ready ==> states[j].ready && states[j].closedBy == states[i].closedBy
    decreases j
  {
    if i < j {
      LiveStays(states, steps, fallback, i, j - 1);
      RunKeepsInv(states, steps, fallback, j - 1);
      StepKeepsInv(states[j - 1], steps[j - 1]);
    }
  }

  /** After a successful refresh closed ready, every reader is served a whole catalogue. */
  lemma ServedLiveAfterSuccess(states: seq<Remote>, steps: seq<Step>, fallback: Snapshot, i: nat, j: nat)
    requires Run(states, steps) && states[0] == Initial(fallback) && i <= j < |steps|
    requires states[i].closedBy == Some(true)
    requires steps[j].Serve?
    ensures var served := states[j + 1].readers[steps[j].reader];
            served.Served? && served.snapshot.live && Complete(served.snapshot)
  {
    RunKeepsInv(states, steps, fallback, i);
    RunKeepsInv(states, steps, fallback, j);
    LiveStays(states, steps, fallback, i, j);
  }

  /** A refresh that succeeded has published before it closes, and nothing is held back: whichever
      refresh closed ready, one that got through is enough for readers to be served live. */
  lemma ServedLiveAfterAnySuccess(states: seq<Remote>, steps: seq<Step>, fallback: Snapshot, i: nat, r: nat, j: nat)
    requires Run(states, steps) && states[0] == Initial(fallback) && i <= j < |steps|
    requires r < |states[i].refreshers| && states[i].refreshers[r] == Left(true)
    requires steps[j].Serve?
    ensures states[j + 1].readers[steps[j].reader].snapshot.live
  {
    RunKeepsInv(states, steps, fallback, i);
    LiveStays(states, steps, fallback, i, j);
  }

  /** A reader goes on without waiting any longer only when a refresh ended or its own wait ran out. */
  lemma {:induction false} ReadersWait(states: seq<Remote>, steps: seq<Step>, fallback: Snapshot, n: nat, i: nat)
    requires Run(states, steps) && states[0] == Initial(fallback) && n < |states|
    requires i < |states[n].readers| && !states[n].readers[i].Waiting?
    ensures states[n].ready || exists j :: 0 <= j < n && steps[j] == Release(i, true)
  {
    var m, s := states[n - 1], steps[n - 1];
    assert Enabled(m, s) && states[n] == Apply(m, s);
    if i < |m.readers| && !m.readers[i].Waiting? {
      ReadersWait(states, steps, fallback, n - 1, i);
    } else {
      assert s.Release? && s.reader == i;
    }
  }
}
