/** The bounded worker pool the listing, the applications and the catalogue are fetched with
    (internal/legacy/provider.go, internal/catalog/remote.go), as steps taken in any order: a
    worker takes the next index off an unbuffered channel, answers it into its own slot, the
    channel is closed behind the last index, and a worker that finds it closed leaves. */
module Pool {
  import opened Credentials

  const FAN_OUT := 8

  datatype Worker = Idle | Busy(index: nat) | Gone

  datatype Pool<A> = Pool(next: nat, closed: bool, workers: seq<Worker>, slots: seq<Option<A>>)

  datatype Step<A> = Take(worker: nat) | Answer(worker: nat, answer: A) | Close | Leave(worker: nat)

  function WorkersFor(n: nat): (workers: nat)
    ensures workers <= 8 && workers <= n && (workers == 8 || workers == n)
  {
    if n < FAN_OUT then n else FAN_OUT
  }

  function Start<A>(n: nat): Pool<A> {
    Pool(0, false, seq(WorkersFor(n), _ => Idle), seq(n, _ => None))
  }

  predicate Enabled<A>(p: Pool<A>, s: Step<A>) {
    match s
    case Take(w) => w < |p.workers| && p.workers[w].Idle? && p.next < |p.slots| && !p.closed
    case Answer(w, _) => w < |p.workers| && p.workers[w].Busy? && p.workers[w].index < |p.slots|
    case Close => p.next == |p.slots| && !p.closed
    case Leave(w) => w < |p.workers| && p.workers[w].Idle? && p.closed
  }

  function Apply<A>(p: Pool<A>, s: Step<A>): Pool<A>
    requires Enabled(p, s)
  {
    match s
    case Take(w) => p.(next := p.next + 1, workers := p.workers[w := Busy(p.next)])
    case Answer(w, answer) =>
      p.(workers := p.workers[w := Idle], slots := p.slots[p.workers[w].index := Some(answer)])
    case Close => p.(closed := true)
    case Leave(w) => p.(workers := p.workers[w := Gone])
  }

  /** Every worker left: the wait is over. */
  predicate Finished<A>(p: Pool<A>) {
    p.closed && forall w :: 0 <= w < |p.workers| ==> p.workers[w].Gone?
  }

  predicate InFlight<A>(p: Pool<A>, i: nat) {
    exists w :: 0 <= w < |p.workers| && p.workers[w] == Busy(i)
  }

  /** An index is untouched, or in flight at one worker and unanswered, or answered: never two of these. */
  ghost predicate Inv<A>(p: Pool<A>) {
    && p.next <= |p.slots|
    && |p.workers| == WorkersFor(|p.slots|)
    && (p.closed ==> p.next == |p.slots|)
    && (forall w :: 0 <= w < |p.workers| && p.workers[w].Gone? ==> p.closed)
    && (forall w :: 0 <= w < |p.workers| && p.workers[w].Busy? ==> p.workers[w].index < p.next)
    && (forall v, w :: 0 <= v < w < |p.workers| && p.workers[v].Busy? && p.workers[w].Busy?
                       ==> p.workers[v].index != p.workers[w].index)
    && (forall i: nat :: i < |p.slots| ==> (p.slots[i].Some? <==> i < p.next && !InFlight(p, i)))
  }

  lemma StartIsFine<A>(n: nat)
    ensures Inv(Start<A>(n))
  {
  }

  /** Only the worker that steps changes what is in flight. */
  lemma StillInFlight<A>(p: Pool<A>, w: nat, x: Worker, i: nat)
    requires w < |p.workers|
    ensures InFlight(p.(workers := p.workers[w := x]), i)
            <==> x == Busy(i) || exists v :: 0 <= v < |p.workers| && v != w && p.workers[v] == Busy(i)
  {
    var q := p.(workers := p.workers[w := x]);
    if v :| 0 <= v < |p.workers| && v != w && p.workers[v] == Busy(i) {
      assert q.workers[v] == Busy(i);
    }
    assert q.workers[w] == x;
  }

  lemma TakeKeepsInv<A>(p: Pool<A>, w: nat)
    requires Inv(p) && Enabled(p, Take(w))
    ensures Inv(Apply(p, Take(w)))
  {
    var q := Apply(p, Take(w));
    forall i: nat | i < |q.slots| ensures InFlight(q, i) <==> InFlight(p, i) || i == p.next {
      StillInFlight(p, w, Busy(p.next), i);
    }
  }

  lemma AnswerKeepsInv<A>(p: Pool<A>, w: nat, answer: A)
    requires Inv(p) && Enabled(p, Answer(w, answer))
    ensures Inv(Apply(p, Answer(w, answer)))
  {
    var q, j := Apply(p, Answer(w, answer)), p.workers[w].index;
    forall i: nat | i < |q.slots| ensures InFlight(q, i) <==> InFlight(p, i) && i != j {
      StillInFlight(p, w, Idle, i);
    }
  }

  lemma LeaveKeepsInv<A>(p: Pool<A>, w: nat)
    requires Inv(p) && Enabled(p, Step<A>.Leave(w))
    ensures Inv(Apply(p, Step<A>.Leave(w)))
  {
    var q := Apply(p, Step<A>.Leave(w));
    forall i: nat | i < |q.slots| ensures InFlight(q, i) <==> InFlight(p, i) {
      StillInFlight(p, w, Worker.Gone, i);
    }
  }

  /** Every step keeps the invariant. */
  lemma StepKeepsInv<A>(p: Pool<A>, s: Step<A>)
    requires Inv(p) && Enabled(p, s)
    ensures Inv(Apply(p, s))
  {
    match s
    case Take(w) => TakeKeepsInv(p, w);
    case Answer(w, answer) => AnswerKeepsInv(p, w, answer);
    case Close =>
      forall i: nat | i < |p.slots| ensures InFlight(Apply(p, s), i) <==> InFlight(p, i) {
      }
    case Leave(w) => LeaveKeepsInv(p, w);
  }

  /** A slot is written once: an answer lands in an empty slot, and no step touches a full one. */
  lemma SlotsAreWrittenOnce<A>(p: Pool<A>, s: Step<A>, i: nat)
    requires Inv(p) && Enabled(p, s) && i < |p.slots|
    ensures p.slots[i].Some? ==> Apply(p, s).slots[i] == p.slots[i]
    ensures s.Answer? && p.workers[s.worker].index == i ==> p.slots[i].None? && Apply(p, s).slots[i] == Some(s.answer)
  {
    if s.Answer? && p.workers[s.worker].index == i {
      assert InFlight(p, i);
    }
  }

  // Progress

  function Weight(w: Worker): nat {
    match w
    case Busy(_) => 2
    case Idle => 1
    case Gone => 0
  }

  function Load(workers: seq<Worker>): nat {
    if workers == [] then 0 else Weight(workers[0]) + Load(workers[1..])
  }

  function Measure<A>(p: Pool<A>): int {
    3 * (|p.slots| - p.next) + Load(p.workers) + (if p.closed then 0 else 1)
  }

  lemma {:induction false} LoadUpdate(workers: seq<Worker>, w: nat, x: Worker)
    requires w < |workers|
    ensures Load(workers[w := x]) == Load(workers) - Weight(workers[w]) + Weight(x)
  {
    if w > 0 {
      LoadUpdate(workers[1..], w - 1, x);
      assert workers[w := x][1..] == workers[1..][w - 1 := x];
    } else {
      assert workers[w := x][1..] == workers[1..];
    }
  }

  /** Every step brings the pool closer to its end. */
  lemma StepMakesProgress<A>(p: Pool<A>, s: Step<A>)
    requires Inv(p) && Enabled(p, s)
    ensures 0 <= Measure(Apply(p, s)) < Measure(p)
  {
    StepKeepsInv(p, s);
    match s
    case Take(w) => LoadUpdate(p.workers, w, Busy(p.next));
    case Answer(w, _) => LoadUpdate(p.workers, w, Idle);
    case Close =>
    case Leave(w) => LoadUpdate(p.workers, w, Worker.Gone);
  }

  /** A pool that has not finished can take a step: there is no deadlock. */
  lemma NoDeadlock<A>(p: Pool<A>, answers: seq<A>) returns (s: Step<A>)
    requires Inv(p) && !Finished(p) && |answers| == |p.slots|
    ensures Enabled(p, s) && Honest(p, s, answers)
  {
    if w :| 0 <= w < |p.workers| && p.workers[w].Busy? {
      s := Answer(w, answers[p.workers[w].index]);
    } else if p.next < |p.slots| {
      s := Take(0);
    } else if !p.closed {
      s := Close;
    } else {
      var w :| 0 <= w < |p.workers| && !p.workers[w].Gone?;
      s := Leave(w);
    }
  }

  // The result

  /** A call about an index gets the answer to that index. */
  predicate Honest<A(==)>(p: Pool<A>, s: Step<A>, answers: seq<A>)
    requires |answers| == |p.slots|
  {
    s.Answer? && Enabled(p, s) ==> s.answer == answers[p.workers[s.worker].index]
  }

  /** Whatever order the steps come in, the pool ends with every answer in its own place. */
  method Fetch<A(==)>(answers: seq<A>) returns (results: seq<A>)
    ensures results == answers
  {
    var p := Start<A>(|answers|);
    StartIsFine<A>(|answers|);
    while !Finished(p)
      invariant Inv(p) && |p.slots| == |answers|
      invariant forall i :: 0 <= i < |answers| && p.slots[i].Some? ==> p.slots[i].value == answers[i]
      decreases Measure(p)
    {
      var s := Pick(p, answers);
      StepKeepsInv(p, s);
      StepMakesProgress(p, s);
      p := Apply(p, s);
    }
    forall i: nat | i < |answers| ensures p.slots[i].Some? {
      assert !InFlight(p, i);
    }
    results := seq(|p.slots|, i requires 0 <= i < |p.slots| && p.slots[i].Some? => p.slots[i].value);
  }

  /** A scheduler that may pick any worker at any moment. */
  method Pick<A(==)>(p: Pool<A>, answers: seq<A>) returns (s: Step<A>)
    requires Inv(p) && !Finished(p) && |answers| == |p.slots|
    ensures Enabled(p, s) && Honest(p, s, answers)
  {
    var w: nat := *;
    if w < |p.workers| && CanStep(p, w) {
      return StepOf(p, w, answers);
    }
    if p.next == |p.slots| && !p.closed {
      return Close;
    }
    for v := 0 to |p.workers|
      invariant forall u :: 0 <= u < v ==> p.workers[u].Gone?
      invariant v > 0 ==> p.closed
    {
      if CanStep(p, v) {
        return StepOf(p, v, answers);
      }
    }
    assert false;
  }

  predicate CanStep<A>(p: Pool<A>, w: nat)
    requires w < |p.workers|
  {
    p.workers[w].Busy? || (p.workers[w].Idle? && (p.closed || p.next < |p.slots|))
  }

  function StepOf<A>(p: Pool<A>, w: nat, answers: seq<A>): Step<A>
    requires Inv(p) && |answers| == |p.slots|
    requires w < |p.workers| && CanStep(p, w)
  {
    if p.workers[w].Busy? then Answer(w, answers[p.workers[w].index])
    else if p.closed then Leave(w)
    else Take(w)
  }
}
