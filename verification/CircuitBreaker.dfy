/** The circuit breaker with any number of calls in flight. */
module CircuitBreaker {
  import opened Common

  datatype CircuitState = CLOSED | OPEN | HALF_OPEN

  const FAILURE_THRESHOLD := 5
  const RECOVERY_TIMEOUT_MS := 30_000

  datatype Breaker = Breaker(state: CircuitState, failureCount: nat, lastFailureTime: Option<int>)

  /** What happens at the breaker, in order: a call asks to start, or a call in flight ends. */
  datatype Event = Attempt(now: int) | Succeeded | Failed(now: int)

  predicate TimedOut(b: Breaker, now: int) {
    b.lastFailureTime.Some? && now - b.lastFailureTime.value > RECOVERY_TIMEOUT_MS
  }

  predicate Admits(b: Breaker, now: int) {
    b.state != OPEN || TimedOut(b, now)
  }

  function Next(b: Breaker, e: Event): Breaker {
    match e
    case Attempt(now) => if b.state == OPEN && TimedOut(b, now) then b.(state := HALF_OPEN) else b
    case Succeeded => if b.state != CLOSED then Breaker(CLOSED, 0, None) else b
    case Failed(now) =>
      Breaker(if b.failureCount + 1 >= FAILURE_THRESHOLD && b.state != OPEN then OPEN else b.state,
              b.failureCount + 1, Some(now))
  }

  class CircuitBreakerService {
    var state: CircuitState
    var failureCount: nat
    var lastFailureTime: Option<int>

    ghost function Value(): Breaker
      reads this
    {
      Breaker(state, failureCount, lastFailureTime)
    }

    constructor ()
      ensures Value() == Breaker(CLOSED, 0, None)
    {
      state, failureCount, lastFailureTime := CLOSED, 0, None;
    }

    /** The part of `execute` before the call; a refused call gets the fallback or an exception. */
    method Begin(now: int) returns (admitted: bool)
      requires state == OPEN ==> lastFailureTime.Some?
      modifies this
      ensures admitted == Admits(old(Value()), now)
      ensures Value() == Next(old(Value()), Attempt(now))
    {
      if state == OPEN {
        if now - lastFailureTime.value > RECOVERY_TIMEOUT_MS {
          state := HALF_OPEN;
        } else {
          return false;
        }
      }
      admitted := true;
    }

    method OnSuccess()
      modifies this
      ensures Value() == Next(old(Value()), Succeeded)
    {
      if state != CLOSED {
        state := CLOSED;
        failureCount := 0;
        lastFailureTime := None;
      }
    }

    method OnFailure(now: int)
      modifies this
      ensures Value() == Next(old(Value()), Failed(now))
    {
      failureCount := failureCount + 1;
      lastFailureTime := Some(now);
      if failureCount >= FAILURE_THRESHOLD && state != OPEN {
        state := OPEN;
      }
    }
  }

  function Run(trace: seq<Event>): Breaker
    decreases |trace|
  {
    if trace == [] then Breaker(CLOSED, 0, None) else Next(Run(trace[..|trace| - 1]), trace[|trace| - 1])
  }

  // ---- a reading of the trace that does not mention the breaker's state ----

  function CountFailed(trace: seq<Event>): nat
    decreases |trace|
  {
    if trace == [] then 0
    else CountFailed(trace[..|trace| - 1]) + if trace[|trace| - 1].Failed? then 1 else 0
  }

  /** The events since the circuit was last closed: a success closes it once the threshold has been
      reached, and otherwise changes nothing. */
  function SinceReset(trace: seq<Event>): seq<Event>
    decreases |trace|
  {
    if trace == [] then []
    else
      var s, e := SinceReset(trace[..|trace| - 1]), trace[|trace| - 1];
      if e.Succeeded? && CountFailed(s) >= 5 then [] else s + [e]
  }

  /** The time of the last failure. */
  function LastFailure(s: seq<Event>): Option<int>
    decreases |s|
  {
    if s == [] then None
    else if s[|s| - 1].Failed? then Some(s[|s| - 1].now)
    else LastFailure(s[..|s| - 1])
  }

  /** Call `j` asked to start more than the recovery time after the last failure. */
  predicate ProbeAt(s: seq<Event>, j: int) {
    && 0 <= j < |s| && s[j].Attempt?
    && (forall k | j < k < |s| :: !s[k].Failed?)
    && LastFailure(s).Some? && s[j].now - LastFailure(s).value > 30_000
  }

  ghost predicate Probed(s: seq<Event>) {
    exists j :: ProbeAt(s, j)
  }

  predicate Tripped(s: seq<Event>) {
    CountFailed(s) >= 5
  }

  lemma {:induction false} LastFailureExists(s: seq<Event>)
    ensures LastFailure(s).None? <==> CountFailed(s) == 0
    decreases |s|
  {
    if s != [] {
      LastFailureExists(s[..|s| - 1]);
    }
  }

  lemma ProbedAfter(s: seq<Event>, e: Event)
    ensures Probed(s + [e]) <==>
            || (!e.Failed? && Probed(s))
            || (e.Attempt? && LastFailure(s).Some? && e.now - LastFailure(s).value > RECOVERY_TIMEOUT_MS)
  {
    var t := s + [e];
    assert t[..|s|] == s;
    if j :| ProbeAt(t, j) {
      if j < |s| {
        assert t[|s|] == e && t[j] == s[j];
        assert forall k | j < k < |s| :: t[k] == s[k];
        assert ProbeAt(s, j);
      }
    }
    if !e.Failed? && Probed(s) {
      var j :| ProbeAt(s, j);
      assert ProbeAt(t, j);
    }
    if e.Attempt? && LastFailure(s).Some? && e.now - LastFailure(s).value > RECOVERY_TIMEOUT_MS {
      assert ProbeAt(t, |s|);
    }
  }

  ghost predicate Follows(b: Breaker, s: seq<Event>) {
    && b.failureCount == CountFailed(s)
    && b.lastFailureTime == LastFailure(s)
    && b.state == if !Tripped(s) then CLOSED else if Probed(s) then HALF_OPEN else OPEN
  }

  lemma NextFollows(b: Breaker, s: seq<Event>, e: Event)
    requires Follows(b, s)
    ensures Follows(Next(b, e), if e.Succeeded? && Tripped(s) then [] else s + [e])
  {
    if e.Succeeded? && Tripped(s) {
      assert Follows(Breaker(CLOSED, 0, None), []);
    } else {
      assert (s + [e])[..|s|] == s;
      ProbedAfter(s, e);
      LastFailureExists(s);
    }
  }

  /** In every reachable state, with any calls overlapping: the count is the number of failures since
      the last reset, consecutive or not; the circuit is closed exactly below the threshold; the last
      failure time is set exactly if there is a failure; and once tripped the circuit is half open
      exactly after a call that started late enough. */
  lemma {:induction false} BreakerFollowsTrace(trace: seq<Event>)
    ensures var b, s := Run(trace), SinceReset(trace);
            && b.failureCount == CountFailed(s)
            && b.lastFailureTime == LastFailure(s) && (b.lastFailureTime.None? <==> b.failureCount == 0)
            && (b.state == CLOSED <==> b.failureCount < 5)
            && (b.state == HALF_OPEN <==> Tripped(s) && Probed(s))
    ensures Follows(Run(trace), SinceReset(trace))
    decreases |trace|
  {
    if trace != [] {
      var front := trace[..|trace| - 1];
      BreakerFollowsTrace(front);
      NextFollows(Run(front), SinceReset(front), trace[|trace| - 1]);
    }
    LastFailureExists(SinceReset(trace));
  }

  /** A call is admitted exactly if the circuit is closed or some call since the last failure, this
      one included, asked more than 30 seconds after it. */
  lemma AdmissionExactly(trace: seq<Event>, now: int)
    ensures Admits(Run(trace), now) <==>
            !Tripped(SinceReset(trace)) || Probed(SinceReset(trace) + [Attempt(now)])
  {
    BreakerFollowsTrace(trace);
    ProbedAfter(SinceReset(trace), Attempt(now));
    LastFailureExists(SinceReset(trace));
  }

  // ---- consecutive failures ----

  /** How many calls in a row have failed by now: a call that succeeds starts the count again. */
  function ConsecutiveFailures(trace: seq<Event>): nat
    decreases |trace|
  {
    if trace == [] then 0
    else
      var front, last := trace[..|trace| - 1], trace[|trace| - 1];
      match last
      case Attempt(_) => ConsecutiveFailures(front)
      case Succeeded => 0
      case Failed(_) => ConsecutiveFailures(front) + 1
  }

  /** Some call succeeded after another had failed. */
  ghost predicate SuccessAfterFailure(s: seq<Event>) {
    exists i, j | 0 <= i < j < |s| :: s[i].Failed? && s[j].Succeeded?
  }

  lemma {:induction false} NoFailureNoCount(s: seq<Event>)
    ensures CountFailed(s) == 0 <==> forall i | 0 <= i < |s| :: !s[i].Failed?
    decreases |s|
  {
    if s != [] {
      var front := s[..|s| - 1];
      NoFailureNoCount(front);
      assert forall i | 0 <= i < |front| :: front[i] == s[i];
    }
  }

  lemma {:induction false} CountIsConsecutiveExactly(s: seq<Event>)
    ensures ConsecutiveFailures(s) <= CountFailed(s)
    ensures ConsecutiveFailures(s) == CountFailed(s) <==> !SuccessAfterFailure(s)
    decreases |s|
  {
    if s != [] {
      var n := |s| - 1;
      var front := s[..n];
      CountIsConsecutiveExactly(front);
      NoFailureNoCount(front);
      assert forall i | 0 <= i < n :: front[i] == s[i];
      if SuccessAfterFailure(front) {
        var i, j :| 0 <= i < j < n && front[i].Failed? && front[j].Succeeded?;
        assert s[i].Failed? && s[j].Succeeded?;
      }
      if s[n].Succeeded? && CountFailed(front) > 0 {
        var i :| 0 <= i < n && front[i].Failed?;
        assert s[i].Failed?;
      }
    }
  }

  /** Closing the circuit needs a success, so nothing before the reset counts as consecutive. */
  lemma {:induction false} ConsecutiveSinceReset(trace: seq<Event>)
    ensures ConsecutiveFailures(trace) == ConsecutiveFailures(SinceReset(trace))
    decreases |trace|
  {
    if trace != [] {
      var s, e := SinceReset(trace[..|trace| - 1]), trace[|trace| - 1];
      ConsecutiveSinceReset(trace[..|trace| - 1]);
      assert (s + [e])[..|s|] == s;
    }
  }

  /** The failure count is the number of consecutive failures that the documentation speaks of exactly
      if no call has succeeded after a failure since the last reset, and never less. */
  lemma CountsConsecutiveExactly(trace: seq<Event>)
    ensures ConsecutiveFailures(trace) <= Run(trace).failureCount
    ensures ConsecutiveFailures(trace) == Run(trace).failureCount <==> !SuccessAfterFailure(SinceReset(trace))
  {
    BreakerFollowsTrace(trace);
    ConsecutiveSinceReset(trace);
    CountIsConsecutiveExactly(SinceReset(trace));
  }

  /** The documented behaviour. Five consecutive failures always leave the circuit tripped. A failure
      that trips a closed circuit ends five consecutive ones exactly if no call has succeeded after a
      failure since the last reset. */
  lemma TripsOnConsecutiveExactly(trace: seq<Event>, now: int)
    ensures ConsecutiveFailures(trace) >= 5 ==> Run(trace).state != CLOSED
    ensures Run(trace).state == CLOSED && Next(Run(trace), Failed(now)).state != CLOSED ==>
              (ConsecutiveFailures(trace + [Failed(now)]) >= 5 <==>
               !SuccessAfterFailure(SinceReset(trace)))
  {
    BreakerFollowsTrace(trace);
    CountsConsecutiveExactly(trace);
    assert (trace + [Failed(now)])[..|trace|] == trace;
  }

  /** The failures that trip the circuit need not be consecutive. */
  lemma TripsWithoutConsecutiveFailures()
    ensures Run([Failed(0), Succeeded, Failed(1), Succeeded, Failed(2), Succeeded, Failed(3), Succeeded,
                 Failed(4)]).state == OPEN
  {
    var t := [Failed(0), Succeeded, Failed(1), Succeeded, Failed(2), Succeeded, Failed(3), Succeeded, Failed(4)];
    forall k | 0 < k <= |t| ensures Run(t[..k]) == Next(Run(t[..k - 1]), t[k - 1]) {
      assert t[..k][..k - 1] == t[..k - 1];
    }
    assert Run(t[..0]) == Breaker(CLOSED, 0, None);
    assert Run(t[..1]) == Breaker(CLOSED, 1, Some(0)) == Run(t[..2]);
    assert Run(t[..3]) == Breaker(CLOSED, 2, Some(1)) == Run(t[..4]);
    assert Run(t[..5]) == Breaker(CLOSED, 3, Some(2)) == Run(t[..6]);
    assert Run(t[..7]) == Breaker(CLOSED, 4, Some(3)) == Run(t[..8]);
    assert t[..9] == t;
  }
}
