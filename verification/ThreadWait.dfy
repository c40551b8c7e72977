/** Waiting for a subjail to quit (src/ghost/thread.c, lines 90-176). */
module ThreadWait {
  import opened Basics

  // ---------- time ----------

  const NS_PER_SEC: nat := 1_000_000_000
  const NS_PER_MS: nat := 1_000_000

  type Nanos = n: nat | n < 1_000_000_000

  /** A reading of the monotonic clock (`struct timespec`). */
  datatype Time = Time(sec: nat, nsec: Nanos)

  function Ns(t: Time): nat {
    t.sec * NS_PER_SEC + t.nsec
  }

  /** Division as C does it, towards zero. */
  function Trunc(x: int, d: nat): int
    requires d > 0
  {
    if x >= 0 then x / d else -((-x) / d)
  }

  /** The difference in milliseconds that the code computes. */
  function MsBetween(a: Time, b: Time): int {
    (b.sec - a.sec) * 1000 + Trunc(b.nsec - a.nsec, NS_PER_MS)
  }

  /** It is not negative, and less than a millisecond off, on either side. */
  lemma {:induction false} MsBetweenBounds(a: Time, b: Time)
    requires Ns(a) <= Ns(b)
    ensures MsBetween(a, b) >= 0
    ensures (MsBetween(a, b) - 1) * NS_PER_MS < Ns(b) - Ns(a) < (MsBetween(a, b) + 1) * NS_PER_MS
  {
  }

  // ---------- the loop ----------

  datatype PollResult = Failed | TimedOut(waited: nat) | Ready

  datatype Handling = Handled | PeerShutdown | HandlingFails

  /** One round, as the system has it: what `poll` returns, after how many nanoseconds it
      gives up, whether the process ended, whether a message is there, the clock after the
      poll, how handling the message goes, and the clock after that. */
  datatype Round = Round(polled: PollResult, exited: bool, message: bool, clock: Option<Time>, handling: Handling,
      clockAfter: Option<Time>)

  datatype Outcome = PollFailed | ForceKilled | Exited(error: bool)

  /** The remaining time, when the last poll started, whether messages are still looked
      at, whether an error is noted, and the outcome once there is one. */
  datatype State = State(timeout: int, start: Time, listening: bool, error: bool, outcome: Option<Outcome>)

  function Start(budget: int, clock: Option<Time>): State {
    State(budget, if clock.Some? then clock.value else Time(0, 0), clock.Some?, clock.None?, None)
  }

  function Deduct(timeout: int, ms: int): int {
    if timeout - ms < 0 then 0 else timeout - ms
  }

  /** The clock reading behind the poll. */
  function Charge(s: State, r: Round): State {
    if !s.listening then s
    else if r.clock.None? then s.(listening := false, error := true)
    else s.(timeout := Deduct(s.timeout, MsBetween(s.start, r.clock.value)), start := r.clock.value)
  }

  /** Handling a message, and the clock reading behind it. */
  function Handle(s: State, r: Round): State {
    if !s.listening || !r.message then s
    else
      var listening := r.handling != PeerShutdown && r.clockAfter.Some?;
      var error := s.error || r.handling == HandlingFails || r.clockAfter.None?;
      s.(listening := listening, error := error, start := if r.clockAfter.Some? then r.clockAfter.value else s.start)
  }

  function Step(s: State, r: Round): State {
    if s.outcome.Some? then s
    else match r.polled
      case Failed => s.(outcome := Some(PollFailed))
      case TimedOut(_) => s.(outcome := Some(ForceKilled))
      case Ready => if r.exited then s.(outcome := Some(Exited(s.error))) else Handle(Charge(s, r), r)
  }

  function Run(s: State, rounds: seq<Round>): State
    decreases |rounds|
  {
    if rounds == [] then s else Run(Step(s, rounds[0]), rounds[1..])
  }

  // ---------- the accounts ----------

  /** The round ended with a message or nothing, and the clock was read. */
  predicate Counts(s: State, r: Round) {
    s.outcome.None? && r.polled.Ready? && !r.exited && s.listening && r.clock.Some?
  }

  /** True time spent in polls that were charged, in nanoseconds, and their number. */
  function Polling(s: State, rounds: seq<Round>): int
    decreases |rounds|
  {
    if rounds == [] then 0
    else (if Counts(s, rounds[0]) then Ns(rounds[0].clock.value) - Ns(s.start)
        else 0) + Polling(Step(s, rounds[0]), rounds[1..])
  }

  function Polls(s: State, rounds: seq<Round>): nat
    decreases |rounds|
  {
    if rounds == [] then 0 else (if Counts(s, rounds[0]) then 1 else 0) + Polls(Step(s, rounds[0]), rounds[1..])
  }

  /** The clock does not run backwards. */
  ghost predicate Monotonic(s: State, rounds: seq<Round>)
    decreases |rounds|
  {
    rounds == [] ||
    (&& (Counts(s, rounds[0]) ==> Ns(s.start) <= Ns(rounds[0].clock.value))
     && Monotonic(Step(s, rounds[0]), rounds[1..]))
  }

  /** Whatever the rounds: the remaining time never grows and is never negative; what was
      taken off it is the true time spent polling to within a millisecond a poll, as long
      as some is left; time spent handling messages is no part of it. */
  lemma {:induction false} Budget(s: State, rounds: seq<Round>)
    requires s.timeout >= 0 && Monotonic(s, rounds)
    ensures var t := Run(s, rounds);
            && 0 <= t.timeout <= s.timeout
            && (s.timeout - t.timeout - Polls(s, rounds)) * NS_PER_MS <= Polling(s, rounds)
            && (t.timeout > 0 ==> Polling(s, rounds) <= (s.timeout - t.timeout + Polls(s, rounds)) * NS_PER_MS)
            && Polling(s, rounds) >= 0
    decreases |rounds|
  {
    if rounds != [] {
      var s', n := Step(s, rounds[0]), Polls(Step(s, rounds[0]), rounds[1..]);
      if Counts(s, rounds[0]) {
        MsBetweenBounds(s.start, rounds[0].clock.value);
      }
      Budget(s', rounds[1..]);
    }
  }

  /** The subjail is killed only after the polls, with the last, have taken what it was
      given less one millisecond a poll; and as long as time is left, they have taken less
      than what it was given and one millisecond a poll. */
  lemma {:induction false} KilledInTime(budget: nat, clock: Time, rounds: seq<Round>, last: Round)
    requires var s := Start(budget, Some(clock)); Monotonic(s, rounds)
    ensures var s := Start(budget, Some(clock));
            var t := Run(s, rounds);
            && (t.timeout > 0 ==> Polling(s, rounds) < (budget + Polls(s, rounds)) * NS_PER_MS)
            && (t.outcome.None? && last.polled.TimedOut? && last.polled.waited >= t.timeout * NS_PER_MS ==>
                  Step(t, last).outcome == Some(ForceKilled) &&
                  Polling(s, rounds) + last.polled.waited >= (budget - Polls(s, rounds)) * NS_PER_MS)
  {
    Budget(Start(budget, Some(clock)), rounds);
  }

  /** `poll` is ready only if one of the descriptors it is given has an event: the process,
      and as long as messages are looked at, the socket. */
  predicate Polled(s: State, r: Round) {
    r.polled.Ready? ==> r.exited || (s.listening && r.message)
  }

  predicate AllPolled(s: State, rounds: seq<Round>)
    decreases |rounds|
  {
    rounds == [] || (Polled(s, rounds[0]) && AllPolled(Step(s, rounds[0]), rounds[1..]))
  }

  /** Messages handled in a run. */
  function Messages(s: State, rounds: seq<Round>): nat
    decreases |rounds|
  {
    if rounds == [] then 0
    else (if Counts(s, rounds[0]) && rounds[0].message then 1 else 0) + Messages(Step(s, rounds[0]), rounds[1..])
  }

  /** The wait goes on for one round more than there are messages, at most: without one, a
      round ends it, or the clock has failed and the next one does. */
  lemma {:induction false} EndsBehindTheMessages(s: State, rounds: seq<Round>)
    requires s.outcome.None? && AllPolled(s, rounds)
    ensures Run(s, rounds).outcome.None? ==> |rounds| <= Messages(s, rounds) + if s.listening then 1 else 0
    decreases |rounds|
  {
    if rounds != [] {
      var s' := Step(s, rounds[0]);
      if s'.outcome.Some? {
        OutcomeStays(s', rounds[1..]);
      } else {
        EndsBehindTheMessages(s', rounds[1..]);
      }
    }
  }

  // ---------- how it ends ----------

  /** The wait is over in this round. */
  predicate Ends(r: Round) {
    !r.polled.Ready? || r.exited
  }

  /** Messages are still looked at behind this round. */
  predicate Hears(r: Round) {
    r.clock.Some? && (r.message ==> r.handling != PeerShutdown && r.clockAfter.Some?)
  }

  /** The round leaves an error: the clock fails, or the handling of a message does. */
  predicate Troubles(r: Round) {
    r.clock.None? || (r.message && (r.handling == HandlingFails || r.clockAfter.None?))
  }

  predicate AllHear(rounds: seq<Round>) {
    forall i | 0 <= i < |rounds| :: Hears(rounds[i])
  }

  /** A round leaves an error, and messages were looked at until then. */
  predicate Troubled(rounds: seq<Round>) {
    exists i :: 0 <= i < |rounds| && AllHear(rounds[..i]) && Troubles(rounds[i])
  }

  lemma {:induction false} TroubledFirst(rounds: seq<Round>)
    requires rounds != []
    ensures Troubled(rounds) <==> Troubles(rounds[0]) || (Hears(rounds[0]) && Troubled(rounds[1..]))
    ensures AllHear(rounds) <==> Hears(rounds[0]) && AllHear(rounds[1..])
  {
    var rest := rounds[1..];
    assert forall i | 0 <= i < |rest| :: rest[i] == rounds[i + 1];
    if AllHear(rest) && Hears(rounds[0]) {
      assert forall i | 0 < i < |rounds| :: rounds[i] == rest[i - 1];
    }
    if i :| 0 <= i < |rounds| && AllHear(rounds[..i]) && Troubles(rounds[i]) {
      if i > 0 {
        assert rounds[..i][0] == rounds[0];
        assert rounds[..i] == [rounds[0]] + rest[..i - 1];
        assert forall j | 0 <= j < i - 1 :: rest[..i - 1][j] == rounds[..i][1..][j];
        assert AllHear(rest[..i - 1]) && Troubles(rest[i - 1]);
      }
    }
    if i :| 0 <= i < |rest| && AllHear(rest[..i]) && Troubles(rest[i]) {
      if Hears(rounds[0]) {
        assert rounds[..i + 1] == [rounds[0]] + rest[..i];
        assert AllHear(rounds[..i + 1]) && Troubles(rounds[i + 1]);
      }
    }
    if Troubles(rounds[0]) {
      assert AllHear(rounds[..0]);
    }
  }

  /** While the wait goes on. */
  lemma {:induction false} NotesErrors(s: State, rounds: seq<Round>)
    requires s.outcome.None? && forall r | r in rounds :: !Ends(r)
    ensures var t := Run(s, rounds);
            && t.outcome.None? && (t.listening <==> s.listening && AllHear(rounds))
            && (t.error <==> s.error || (s.listening && Troubled(rounds)))
    decreases |rounds|
  {
    hide AllHear, Troubled;
    if rounds == [] {
      assert AllHear(rounds) && !Troubled(rounds) by { NothingTroubles(); }
    } else {
      assert rounds[0] in rounds && forall r | r in rounds[1..] :: r in rounds;
      TroubledFirst(rounds);
      NotesErrors(Step(s, rounds[0]), rounds[1..]);
    }
  }

  lemma {:induction false} NothingTroubles()
    ensures AllHear([]) && !Troubled([])
  {
  }

  /** The first round in which the poll fails, its time is over or the process is gone decides: with
      an error if the clock failed before, or the handling of a message did while messages were still
      looked at. Until then the wait goes on. */
  lemma {:induction false} FirstEndDecides(budget: int, clock: Option<Time>, rounds: seq<Round>, more: seq<Round>,
                                           r: Round)
    requires forall x | x in rounds :: !Ends(x)
    ensures Run(Start(budget, clock), rounds).outcome.None?
    ensures Ends(r) ==> Run(Start(budget, clock), rounds + [r] + more).outcome == Some(
            match r.polled
            case Failed => PollFailed
            case TimedOut(_) => ForceKilled
            case Ready => Exited(clock.None? || Troubled(rounds)))
  {
    var s := Start(budget, clock);
    NotesErrors(s, rounds);
    if Ends(r) {
      RunConcat(s, rounds, [r] + more);
      assert rounds + [r] + more == rounds + ([r] + more);
      assert ([r] + more)[1..] == more;
      OutcomeStays(Step(Run(s, rounds), r), more);
    }
  }

  lemma {:induction false} RunConcat(s: State, a: seq<Round>, b: seq<Round>)
    ensures Run(s, a + b) == Run(Run(s, a), b)
    decreases |a|
  {
    hide Step;
    if a == [] {
      assert a + b == b;
    } else {
      assert (a + b)[1..] == a[1..] + b;
      RunConcat(Step(s, a[0]), a[1..], b);
    }
  }

  /** Truncation can charge more than the time that passed, and less. */
  lemma {:induction false} ChargesBothWays()
    ensures MsBetween(Time(0, 999_999_999), Time(1, 0)) == 1
    ensures Ns(Time(1, 0)) - Ns(Time(0, 999_999_999)) == 1
    ensures MsBetween(Time(0, 0), Time(0, 999_999)) == 0
  {
  }

  // ---------- the loop as it runs ----------

  /** `thread_wait`, over the rounds that the system has in store. */
  method Wait(budget: int, clock: Option<Time>, rounds: seq<Round>) returns (outcome: Option<Outcome>)
    ensures outcome == Run(Start(budget, clock), rounds).outcome
  {
    var timeout, listening, error := budget, true, false;
    var start := Time(0, 0);
    if clock.None? {
      listening, error := false, true;
    } else {
      start := clock.value;
    }
    var i := 0;
    ghost var whole := Run(Start(budget, clock), rounds);
    assert rounds[0..] == rounds;
    while i < |rounds|
      invariant i <= |rounds| && Run(State(timeout, start, listening, error, None), rounds[i..]) == whole
    {
      var r := rounds[i];
      ghost var before := State(timeout, start, listening, error, None);
      assert rounds[i..][1..] == rounds[i + 1..] && rounds[i..][0] == r;
      assert Run(Step(before, r), rounds[i + 1..]) == whole;
      if r.polled.Failed? {
        OutcomeStays(Step(before, r), rounds[i + 1..]);
        return Some(PollFailed);
      }
      if r.polled.TimedOut? {
        OutcomeStays(Step(before, r), rounds[i + 1..]);
        return Some(ForceKilled);
      }
      if r.exited {
        OutcomeStays(Step(before, r), rounds[i + 1..]);
        return Some(Exited(error));
      }
      if listening {
        if r.clock.None? {
          listening, error := false, true;
        } else {
          timeout := timeout - MsBetween(start, r.clock.value);
          if timeout < 0 {
            timeout := 0;
          }
          start := r.clock.value;
        }
      }
      if listening && r.message {
        if r.handling == PeerShutdown {
          listening := false;
        }
        if r.handling == HandlingFails {
          error := true;
        }
        if r.clockAfter.None? {
          listening, error := false, true;
        } else {
          start := r.clockAfter.value;
        }
      }
      assert State(timeout, start, listening, error, None) == Step(before, r);
      i := i + 1;
    }
    return None;
  }

  lemma {:induction false} OutcomeStays(s: State, rounds: seq<Round>)
    requires s.outcome.Some?
    ensures Run(s, rounds).outcome == s.outcome
    decreases |rounds|
  {
    if rounds != [] {
      OutcomeStays(s, rounds[1..]);
    }
  }
}
