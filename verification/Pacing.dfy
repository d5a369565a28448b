/** How often a call is sent and how long it waits when the API refuses it for its rate
    (internal/ovh/pacing.go, internal/ovh/api.go). */
module Pacing {
  import opened Text
  import opened Credentials

  const SECOND := 1_000_000_000
  const RATE_LIMIT_ATTEMPTS := 4
  const RATE_LIMIT_WAIT := SECOND
  const RATE_LIMIT_CEILING := 10 * SECOND
  const RETRY_DELAY := 500_000_000

  const MAX64 := 0x7fff_ffff_ffff_ffff
  const MIN64 := -0x8000_0000_0000_0000

  type int64 = n: int | MIN64 <= n <= MAX64

  /** A product or a sum as a machine of 64 bits keeps it. */
  function Wrap64(n: int): int64 {
    var low := n % 0x1_0000_0000_0000_0000;
    if low <= MAX64 then low else low - 0x1_0000_0000_0000_0000
  }

  function Min(a: int, b: int): int {
    if a <= b then a else b
  }

  function Max(a: int, b: int): int {
    if a >= b then a else b
  }

  // Retry-After

  predicate AllDigits(s: string) {
    s != "" && forall i :: 0 <= i < |s| ==> '0' <= s[i] <= '9'
  }

  /** A whole number with an optional sign, where 64 bits hold it. */
  function Atoi(s: string): (n: Option<int64>) {
    var signed := s != "" && (s[0] == '-' || s[0] == '+');
    var digits := if signed then s[1..] else s;
    if !AllDigits(digits) then None
    else
      var value: int := if signed && s[0] == '-' then -(DigitsValue(digits) as int) else DigitsValue(digits);
      if MIN64 <= value <= MAX64 then Some(value) else None
  }

  /** The difference of two moments, kept to what 64 bits hold. */
  function Sub(at: int, now: int): int64 {
    Min(Max(at - now, MIN64), MAX64)
  }

  /** What a header asks for, in nanoseconds from now and without any limit. */
  function Asked(header: string, parseTime: string -> Option<int>, now: int, fallback: int): int {
    var text := TrimSpace(header);
    if Atoi(text).Some? && Atoi(text).value >= 0 then Atoi(text).value * SECOND
    else if parseTime(text).Some? then parseTime(text).value - now
    else fallback
  }

  /** A header of digits asks for so many seconds, whatever white space is around it; one with any
      other character but a sign, for the time until the date it gives, and one that gives none for
      the time to fall back on. */
  lemma AskedExactly(header: string, before: string, text: string, after: string, parseTime: string -> Option<int>,
                     now: int, fallback: int)
    requires Surrounds(before, text, after, header)
    requires text != "" && !IsSpace(text[0]) && !IsSpace(text[|text| - 1])
    ensures AllDigits(text) && DigitsValue(text) <= MAX64
            ==> Asked(header, parseTime, now, fallback) == DigitsValue(text) * 1_000_000_000
    ensures text[0] == '+' && AllDigits(text[1..]) && DigitsValue(text[1..]) <= MAX64
            ==> Asked(header, parseTime, now, fallback) == DigitsValue(text[1..]) * 1_000_000_000
    ensures (exists i :: 0 <= i < |text| && !('0' <= text[i] <= '9') && text[i] !in {'-', '+'})
            ==> Asked(header, parseTime, now, fallback) ==
                match parseTime(text)
                case Some(at) => at - now
                case None => fallback
  {
    TrimmedBetween(before, text, after, header);
    if AllDigits(text) {
      DigitsAreANumber(text);
    }
    if text[0] == '+' && AllDigits(text[1..]) {
      PlusIsASign(text);
    }
    if i :| 0 <= i < |text| && !('0' <= text[i] <= '9') && text[i] !in {'-', '+'} {
      NoNumber(text, i);
    }
  }

  lemma DigitsAreANumber(text: string)
    requires AllDigits(text)
    ensures DigitsValue(text) <= MAX64 ==> Atoi(text) == Some(DigitsValue(text))
  {
    assert '0' <= text[0] <= '9';
  }

  lemma PlusIsASign(text: string)
    requires text != "" && text[0] == '+' && AllDigits(text[1..])
    ensures DigitsValue(text[1..]) <= MAX64 ==> Atoi(text) == Some(DigitsValue(text[1..]))
  {
  }

  lemma NoNumber(text: string, i: nat)
    requires i < |text| && !('0' <= text[i] <= '9') && text[i] !in {'-', '+'}
    ensures Atoi(text).None?
  {
    if i > 0 {
      assert text[1..][i - 1] == text[i];
    }
  }

  /** The wait is what the header asks for, between zero and the ceiling, in arithmetic of 64 bits.
      Under a ceiling that is no whole number of seconds it can be up to a second more, never above it. */
  method Delay(header: string, parseTime: string -> Option<int>, now: int, fallback: int64, ceiling: int64)
    returns (wait: int64)
    requires ceiling >= 0
    ensures 0 <= wait <= ceiling
    ensures var kept := Min(Max(Asked(header, parseTime, now, fallback), 0), ceiling);
            kept <= wait < kept + SECOND && (ceiling % SECOND == 0 ==> wait == kept)
  {
    wait := fallback;
    var text := TrimSpace(header);
    var seconds := Atoi(text);
    if seconds.Some? && seconds.value >= 0 {
      wait := ceiling;
      if seconds.value < ceiling / SECOND {
        wait := Wrap64(seconds.value * SECOND);
      }
    } else {
      var at := parseTime(text);
      if at.Some? {
        wait := Sub(at.value, now);
      }
    }
    wait := Min(Max(wait, 0), ceiling);
  }

  /** Multiplied out before it is compared, a delay comes out as another one exactly from the
      second on that 64 bits cannot count in nanoseconds, and as no wait at all at that one. */
  lemma DelaysWouldWrap(seconds: nat)
    ensures Wrap64(seconds * SECOND) == seconds * SECOND <==> seconds <= MAX64 / SECOND
    ensures seconds == MAX64 / SECOND + 1 ==> Wrap64(seconds * SECOND) < 0
  {
    if seconds <= MAX64 / SECOND {
      Together(seconds, 0, MAX64 / SECOND, SECOND);
    } else {
      Together(MAX64 / SECOND + 1, 0, seconds, SECOND);
    }
  }

  // Sending

  /** What one send comes to: carried out; refused under a status; refused for its rate after the
      wait, or while it was cut short; or no answer read. */
  datatype Outcome = Success | Denied(status: int) | TooMany(waited: int) | Cut(waited: int) | Lost

  datatype Reply = NoReply | Reply(status: int, retryAfter: string)

  function StatusOf(o: Outcome): int {
    match o
    case Denied(status) => status
    case TooMany(_) => 429
    case _ => 0
  }

  predicate RateLimited(o: Outcome) {
    StatusOf(o) == 429
  }

  function Waited(o: Outcome): int {
    if o.TooMany? || o.Cut? then o.waited else 0
  }

  /** A call refused for its rate was not carried out; any other may have been. */
  predicate MayHaveActed(o: Outcome) {
    !RateLimited(o) && !o.Cut?
  }

  /** What the transport hands back, a context ending some time into the wait or never. */
  method RoundTrip(reply: Reply, parseTime: string -> Option<int>, now: int, ends: Option<nat>) returns (o: Outcome)
    ensures 0 <= Waited(o) <= RATE_LIMIT_CEILING
    ensures o.Lost? <==> reply.NoReply? || reply.status == 0
    ensures o.Success? <==> reply.Reply? && 200 <= reply.status < 300
    ensures o.TooMany? || o.Cut? <==> reply.Reply? && reply.status == 429
    ensures o.TooMany? || o.Cut? ==>
              var asked := Asked(reply.retryAfter, parseTime, now, 1_000_000_000);
              var wait := Min(Max(asked, 0), 10_000_000_000);
              o == if ends.Some? && ends.value < wait then Cut(ends.value) else TooMany(wait)
    ensures o.Denied? ==> reply.Reply? && o.status == reply.status && o.status != 0 && o.status != 429
  {
    // A status of zero reads as none.
    if reply.NoReply? || reply.status == 0 {
      return Lost;
    }
    if reply.status != 429 {
      return if 200 <= reply.status < 300 then Success else Denied(reply.status);
    }
    var wait := Delay(reply.retryAfter, parseTime, now, RATE_LIMIT_WAIT, RATE_LIMIT_CEILING);
    if ends.Some? && ends.value < wait {
      return Cut(ends.value);
    }
    return TooMany(wait);
  }

  /** How many sends a paced call takes of those it may: up to the first not refused for its rate. */
  function Sends(answer: nat -> Outcome, first: nat, attempts: nat): (n: nat)
    ensures 1 <= n <= Max(attempts, 1)
    decreases attempts
  {
    if attempts <= 1 || !RateLimited(answer(first)) then 1 else 1 + Sends(answer, first + 1, attempts - 1)
  }

  /** Every send but the last was refused for its rate, and the last one too only where there were no more. */
  lemma {:induction false} SendsAgainOnlyAfterARefusal(answer: nat -> Outcome, first: nat, attempts: nat)
    ensures var n := Sends(answer, first, attempts);
            && (forall k: nat :: first <= k < first + n - 1 ==> RateLimited(answer(k)))
            && (n < attempts ==> !RateLimited(answer(first + n - 1)))
    decreases attempts
  {
    if attempts > 1 && RateLimited(answer(first)) {
      SendsAgainOnlyAfterARefusal(answer, first + 1, attempts - 1);
    }
  }

  method Paced(answer: nat -> Outcome, first: nat, attempts: nat) returns (last: Outcome, sends: nat)
    requires attempts >= 1
    ensures sends == Sends(answer, first, attempts)
    ensures last == answer(first + sends - 1)
  {
    last, sends := answer(first), 1;
    while sends < attempts && StatusOf(last) == 429
      invariant 1 <= sends <= attempts && last == answer(first + sends - 1)
      invariant Sends(answer, first, attempts) == sends - 1 + Sends(answer, first + sends - 1, attempts - sends + 1)
    {
      last := answer(first + sends);
      sends := sends + 1;
    }
  }

  /** Whether a read goes a second round: no status came back, the caller still waits, and goes on
      waiting through the delay. */
  predicate GoesOn(answer: nat -> Outcome, attempts: nat, waits: bool, stays: bool) {
    var last := answer(Sends(answer, 0, attempts) - 1);
    !last.Success? && StatusOf(last) == 0 && waits && stays
  }

  function ReadSends(answer: nat -> Outcome, attempts: nat, waits: bool, stays: bool): nat {
    var n := Sends(answer, 0, attempts);
    if GoesOn(answer, attempts, waits, stays) then n + Sends(answer, n, attempts) else n
  }

  method Get(answer: nat -> Outcome, attempts: nat, waits: bool, stays: bool) returns (last: Outcome, sends: nat)
    requires attempts >= 1
    ensures sends == ReadSends(answer, attempts, waits, stays)
    ensures last == answer(sends - 1)
    ensures var round := answer(Sends(answer, 0, attempts) - 1);
            sends > Sends(answer, 0, attempts)
            <==> (round.Cut? || round.Lost? || round == Denied(0)) && waits && stays
  {
    last, sends := Paced(answer, 0, attempts);
    if last.Success? || StatusOf(last) != 0 || !waits {
      return;
    }
    if !stays {
      return;
    }
    var again: nat;
    last, again := Paced(answer, sends, attempts);
    sends := sends + again;
  }

  // What every sequence of answers comes to

  /** How many of the first n answers from one on have a property. */
  function Count(answer: nat -> Outcome, first: nat, n: nat, has: Outcome -> bool): nat {
    if n == 0 then 0 else Count(answer, first, n - 1, has) + (if has(answer(first + n - 1)) then 1 else 0)
  }

  function Pause(answer: nat -> Outcome, first: nat, n: nat): int {
    if n == 0 then 0 else Pause(answer, first, n - 1) + Waited(answer(first + n - 1))
  }

  /** Answers as the transport hands them back. */
  ghost predicate Transported(answer: nat -> Outcome) {
    forall k: nat :: 0 <= Waited(answer(k)) <= RATE_LIMIT_CEILING
  }

  lemma {:induction false} NoneOf(answer: nat -> Outcome, first: nat, n: nat, has: Outcome -> bool)
    requires forall k: nat :: first <= k < first + n ==> !has(answer(k))
    ensures Count(answer, first, n, has) == 0
  {
    if n > 0 {
      NoneOf(answer, first, n - 1, has);
    }
  }

  lemma {:induction false} CountAtMost(answer: nat -> Outcome, first: nat, n: nat, has: Outcome -> bool)
    ensures Count(answer, first, n, has) <= n
  {
    if n > 0 {
      CountAtMost(answer, first, n - 1, has);
    }
  }

  lemma {:induction false} CountJoins(answer: nat -> Outcome, first: nat, m: nat, n: nat, has: Outcome -> bool)
    ensures Count(answer, first, m + n, has) == Count(answer, first, m, has) + Count(answer, first + m, n, has)
  {
    if n > 0 {
      CountJoins(answer, first, m, n - 1, has);
    }
  }

  lemma {:induction false} PauseWithin(answer: nat -> Outcome, first: nat, n: nat)
    requires Transported(answer)
    ensures 0 <= Pause(answer, first, n) <= n * RATE_LIMIT_CEILING
  {
    if n > 0 {
      PauseWithin(answer, first, n - 1);
    }
  }

  lemma {:induction false} PauseJoins(answer: nat -> Outcome, first: nat, m: nat, n: nat)
    ensures Pause(answer, first, m + n) == Pause(answer, first, m) + Pause(answer, first + m, n)
  {
    if n > 0 {
      PauseJoins(answer, first, m, n - 1);
    }
  }

  /** Of the sends of a write only the last can have been carried out, and there are as many as
      attempts at most. */
  lemma WriteActsAtMostOnce(answer: nat -> Outcome, attempts: nat)
    requires attempts >= 1
    ensures var n := Sends(answer, 0, attempts);
            n <= attempts && Count(answer, 0, n, MayHaveActed) == if MayHaveActed(answer(n - 1)) then 1 else 0
  {
    var n := Sends(answer, 0, attempts);
    SendsAgainOnlyAfterARefusal(answer, 0, attempts);
    forall k: nat | k < n - 1 ensures !MayHaveActed(answer(k)) {
      assert RateLimited(answer(k));
    }
    NoneOf(answer, 0, n - 1, MayHaveActed);
  }

  /** One round waits before each send but the first, and on the answer it ends on. */
  lemma RoundIsBounded(answer: nat -> Outcome, first: nat, n: nat)
    requires Transported(answer) && n >= 1
    ensures var last := answer(first + n - 1);
            && Count(answer, first, n, RateLimited) <= n - 1 + (if RateLimited(last) then 1 else 0)
            && 0 <= Pause(answer, first, n) <= (n - 1) * RATE_LIMIT_CEILING + Waited(last)
  {
    CountAtMost(answer, first, n - 1, RateLimited);
    PauseWithin(answer, first, n - 1);
    assert 0 <= Waited(answer(first + n - 1)) <= RATE_LIMIT_CEILING;
  }

  /** The pauses of a read: its waits, and the delay before a second round. */
  function ReadPause(answer: nat -> Outcome, attempts: nat, waits: bool, stays: bool): int {
    Pause(answer, 0, ReadSends(answer, attempts, waits, stays))
    + (if GoesOn(answer, attempts, waits, stays) then RETRY_DELAY else 0)
  }

  /** A second round that follows a wait cut short. */
  predicate GoesOnFromACut(answer: nat -> Outcome, attempts: nat, waits: bool, stays: bool) {
    GoesOn(answer, attempts, waits, stays) && answer(Sends(answer, 0, attempts) - 1).Cut?
  }

  /** A read is sent twice as often as a write at most. One send fewer at most is refused for its
      rate, and the pauses come to as many ceilings and the retry delay, with one ceiling more only
      where the read went on from a wait cut short. */
  lemma ReadIsBounded(answer: nat -> Outcome, attempts: nat, waits: bool, stays: bool)
    requires Transported(answer) && attempts >= 1
    ensures var n := ReadSends(answer, attempts, waits, stays);
            && n <= 2 * attempts
            && Count(answer, 0, n, RateLimited) <= 2 * attempts - 1
            && 0 <= ReadPause(answer, attempts, waits, stays)
                 <= (2 * attempts - 1) * RATE_LIMIT_CEILING + RETRY_DELAY
                    + (if GoesOnFromACut(answer, attempts, waits, stays) then RATE_LIMIT_CEILING else 0)
  {
    var first := Sends(answer, 0, attempts);
    RoundIsBounded(answer, 0, first);
    var last := answer(first - 1);
    assert 0 <= Waited(last) <= RATE_LIMIT_CEILING;
    if GoesOn(answer, attempts, waits, stays) {
      var second := Sends(answer, first, attempts);
      SecondRound(answer, first, second);
      assert ReadSends(answer, attempts, waits, stays) == first + second;
      assert !RateLimited(last) && (!last.Cut? ==> Waited(last) == 0);
      Together(first - 1, second, 2 * attempts - 1, RATE_LIMIT_CEILING);
    } else {
      Together(first - 1, 1, 2 * attempts - 1, RATE_LIMIT_CEILING);
      assert ReadSends(answer, attempts, waits, stays) == first;
    }
  }

  lemma Together(m: nat, n: nat, most: nat, each: nat)
    requires m + n <= most
    ensures m * each + n * each <= most * each
  {
    assert most * each == m * each + n * each + (most - m - n) * each;
  }

  /** With the attempts of the client: eight sends, seven refusals, and seventy seconds and a half. */
  lemma ClientReadIsBounded(answer: nat -> Outcome, attempts: nat, waits: bool, stays: bool)
    requires Transported(answer) && attempts == RATE_LIMIT_ATTEMPTS
    requires !GoesOnFromACut(answer, attempts, waits, stays)
    ensures ReadSends(answer, attempts, waits, stays) <= 8
    ensures Count(answer, 0, ReadSends(answer, attempts, waits, stays), RateLimited) <= 7
    ensures ReadPause(answer, attempts, waits, stays) <= 70_500_000_000
  {
    ReadIsBounded(answer, attempts, waits, stays);
    Together(2 * attempts - 1, 0, 7, RATE_LIMIT_CEILING);
  }

  /** Refused for the longest wait each time, but for a lost answer at the end of the first round. */
  function LostOnce(attempts: nat): nat -> Outcome {
    (k: nat) => if k == attempts - 1 then Lost else TooMany(RATE_LIMIT_CEILING)
  }

  /** Those bounds are reached. */
  lemma ClientBoundsAreReached()
    ensures var answer := LostOnce(RATE_LIMIT_ATTEMPTS);
            && Transported(answer)
            && ReadSends(answer, RATE_LIMIT_ATTEMPTS, true, true) == 8
            && Count(answer, 0, 8, RateLimited) == 7
            && ReadPause(answer, RATE_LIMIT_ATTEMPTS, true, true) == 70_500_000_000
  {
    LostOnceSends(RATE_LIMIT_ATTEMPTS);
    LostOnceCounts(RATE_LIMIT_ATTEMPTS);
    LostOncePauses(RATE_LIMIT_ATTEMPTS);
  }

  lemma LostOnceSends(attempts: nat)
    requires attempts >= 1
    ensures var answer := LostOnce(attempts);
            Sends(answer, 0, attempts) == attempts && Sends(answer, attempts, attempts) == attempts
  {
    RefusedThroughout(LostOnce(attempts), 0, attempts);
    RefusedThroughout(LostOnce(attempts), attempts, attempts);
  }

  lemma LostOnceCounts(attempts: nat)
    requires attempts >= 1
    ensures Count(LostOnce(attempts), 0, 2 * attempts, RateLimited) == 2 * attempts - 1
  {
    var answer := LostOnce(attempts);
    AllOf(answer, 0, attempts - 1, RateLimited);
    AllOf(answer, attempts, attempts, RateLimited);
    CountJoins(answer, 0, attempts, attempts, RateLimited);
  }

  lemma LostOncePauses(attempts: nat)
    requires attempts >= 1
    ensures Pause(LostOnce(attempts), 0, 2 * attempts) == (2 * attempts - 1) * RATE_LIMIT_CEILING
  {
    var answer := LostOnce(attempts);
    FullPauses(answer, 0, attempts - 1);
    FullPauses(answer, attempts, attempts);
    PauseJoins(answer, 0, attempts, attempts);
    Twice(attempts, RATE_LIMIT_CEILING);
  }

  lemma Twice(attempts: nat, each: int)
    ensures (attempts - 1) * each + attempts * each == (2 * attempts - 1) * each
  {
  }

  lemma {:induction false} AllOf(answer: nat -> Outcome, first: nat, n: nat, has: Outcome -> bool)
    requires forall k: nat :: first <= k < first + n ==> has(answer(k))
    ensures Count(answer, first, n, has) == n
  {
    if n > 0 {
      AllOf(answer, first, n - 1, has);
    }
  }

  lemma SecondRound(answer: nat -> Outcome, first: nat, second: nat)
    requires Transported(answer) && second >= 1
    ensures Count(answer, 0, first + second, RateLimited) <= Count(answer, 0, first, RateLimited) + second
    ensures 0 <= Pause(answer, 0, first + second) - Pause(answer, 0, first) <= second * RATE_LIMIT_CEILING
  {
    CountAtMost(answer, first, second, RateLimited);
    PauseWithin(answer, first, second);
    CountJoins(answer, 0, first, second, RateLimited);
    PauseJoins(answer, 0, first, second);
  }

  /** Refusals throughout, and the wait after one round's last cut one nanosecond short. */
  function OneCut(attempts: nat): nat -> Outcome {
    (k: nat) => if k == attempts - 1 then Cut(RATE_LIMIT_CEILING - 1) else TooMany(RATE_LIMIT_CEILING)
  }

  lemma {:induction false} RefusedThroughout(answer: nat -> Outcome, first: nat, attempts: nat)
    requires attempts >= 1 && forall k: nat :: first <= k < first + attempts - 1 ==> RateLimited(answer(k))
    ensures Sends(answer, first, attempts) == attempts
    decreases attempts
  {
    if attempts > 1 {
      RefusedThroughout(answer, first + 1, attempts - 1);
    }
  }

  lemma {:induction false} FullPauses(answer: nat -> Outcome, first: nat, n: nat)
    requires forall k: nat :: first <= k < first + n ==> Waited(answer(k)) == RATE_LIMIT_CEILING
    ensures Pause(answer, first, n) == n * RATE_LIMIT_CEILING
  {
    if n > 0 {
      FullPauses(answer, first, n - 1);
    }
  }

  /** The one wait more takes place. */
  lemma OneCutAddsUp(attempts: nat)
    requires attempts >= 1
    ensures Transported(OneCut(attempts)) && ReadSends(OneCut(attempts), attempts, true, true) == 2 * attempts
    ensures ReadPause(OneCut(attempts), attempts, true, true) == 2 * attempts * RATE_LIMIT_CEILING - 1 + RETRY_DELAY
  {
    OneCutSends(attempts);
    OneCutPauses(attempts);
  }

  lemma OneCutSends(attempts: nat)
    requires attempts >= 1
    ensures Sends(OneCut(attempts), 0, attempts) == attempts && Sends(OneCut(attempts), attempts, attempts) == attempts
  {
    RefusedThroughout(OneCut(attempts), 0, attempts);
    RefusedThroughout(OneCut(attempts), attempts, attempts);
  }

  lemma OneCutPauses(attempts: nat)
    requires attempts >= 1
    ensures Pause(OneCut(attempts), 0, 2 * attempts) == 2 * attempts * RATE_LIMIT_CEILING - 1
  {
    var answer := OneCut(attempts);
    FullPauses(answer, 0, attempts - 1);
    FullPauses(answer, attempts, attempts);
    PauseJoins(answer, 0, attempts, attempts);
  }

  predicate EndsItself(o: Outcome) {
    !o.Cut?
  }

  ghost predicate Uncut(answer: nat -> Outcome) {
    forall k: nat :: EndsItself(answer(k))
  }

  /** One ceiling fewer than the sends of two rounds, and the retry delay, bound the pauses of every
      read of a client whose waits may be cut short or not, if and only if they may not. */
  lemma PausesAreBoundedExactly(attempts: nat, cuts: bool)
    requires attempts >= 1
    ensures (forall answer: nat -> Outcome, waits, stays :: Transported(answer) && (cuts || Uncut(answer)) ==>
               ReadPause(answer, attempts, waits, stays) <= (2 * attempts - 1) * RATE_LIMIT_CEILING + RETRY_DELAY)
            <==> !cuts
  {
    if cuts {
      OneCutAddsUp(attempts);
    } else {
      forall answer: nat -> Outcome, waits, stays | Transported(answer) && Uncut(answer)
        ensures ReadPause(answer, attempts, waits, stays) <= (2 * attempts - 1) * RATE_LIMIT_CEILING + RETRY_DELAY
      {
        ReadIsBounded(answer, attempts, waits, stays);
        assert EndsItself(answer(Sends(answer, 0, attempts) - 1));
      }
    }
  }
}
