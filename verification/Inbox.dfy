/** Idempotent event handling: claim the event id, run the handler, release the claim on failure. */
module Inbox {
  import opened Common

  datatype ProcessError = HandlerFailed

  class InboxService {
    /** Event id to event type. */
    var inbox: map<string, string>

    constructor ()
      ensures inbox == map[]
    {
      inbox := map[];
    }

    /** `INSERT ... ON CONFLICT DO NOTHING RETURNING` */
    method Claim(eventId: string, eventType: string) returns (inserted: bool)
      modifies this
      ensures inserted == (eventId !in old(inbox))
      ensures inbox == if inserted then old(inbox)[eventId := eventType] else old(inbox)
    {
      inserted := eventId !in inbox;
      if inserted {
        inbox := inbox[eventId := eventType];
      }
    }

    /** After the handler: a failed handler gives the claim back and its error is rethrown. */
    method Finish(eventId: string, handled: bool) returns (r: Result<bool, ProcessError>)
      modifies this
      ensures inbox == if handled then old(inbox) else old(inbox) - {eventId}
      ensures r == if handled then Success(true) else Failure(HandlerFailed)
    {
      if handled {
        return Success(true);
      }
      inbox := inbox - {eventId};
      r := Failure(HandlerFailed);
    }
  }

  // ---- any number of overlapping calls ----

  datatype Phase =
    | Waiting       // called, before the INSERT
    | Skipped       // the INSERT found a row
    | Running       // claimed, the handler is at work
    | Succeeded     // the handler returned
    | Failing       // the handler threw, before the DELETE
    | Released      // the DELETE has run
    | Crashed(claimed: bool)

  datatype Call = Call(eventId: string, phase: Phase)

  datatype State = State(rows: set<string>, calls: map<nat, Call>)

  datatype Step =
    | Arrive(c: nat, eventId: string)
    | Claim(c: nat)
    | Succeed(c: nat)
    | Fail(c: nat)
    | Release(c: nat)
    | Crash(c: nat)

  predicate Enabled(s: State, step: Step) {
    match step
    case Arrive(c, _) => c !in s.calls
    case Claim(c) => c in s.calls && s.calls[c].phase == Waiting
    case Succeed(c) => c in s.calls && s.calls[c].phase == Running
    case Fail(c) => c in s.calls && s.calls[c].phase == Running
    case Release(c) => c in s.calls && s.calls[c].phase == Failing
    case Crash(c) =>
      c in s.calls && (s.calls[c].phase == Waiting || s.calls[c].phase == Running || s.calls[c].phase == Failing)
  }

  function Goto(s: State, c: nat, phase: Phase): State
    requires c in s.calls
  {
    s.(calls := s.calls[c := s.calls[c].(phase := phase)])
  }

  function Do(s: State, step: Step): State
    requires Enabled(s, step)
  {
    match step
    case Arrive(c, e) => s.(calls := s.calls[c := Call(e, Waiting)])
    case Claim(c) =>
      var e := s.calls[c].eventId;
      if e in s.rows then Goto(s, c, Skipped) else Goto(s, c, Running).(rows := s.rows + {e})
    case Succeed(c) => Goto(s, c, Succeeded)
    case Fail(c) => Goto(s, c, Failing)
    case Release(c) => Goto(s, c, Released).(rows := s.rows - {s.calls[c].eventId})
    case Crash(c) => Goto(s, c, Crashed(s.calls[c].phase != Waiting))
  }

  /** The call inserted its row and has not deleted it. */
  predicate Holds(s: State, c: nat) {
    c in s.calls && (s.calls[c].phase == Running || s.calls[c].phase == Succeeded
                     || s.calls[c].phase == Failing || s.calls[c].phase == Crashed(true))
  }

  /** A row exists for an event exactly while one call holds it. */
  ghost predicate Inv(s: State) {
    && (forall c, d | Holds(s, c) && Holds(s, d) && s.calls[c].eventId == s.calls[d].eventId :: c == d)
    && (forall c | Holds(s, c) :: s.calls[c].eventId in s.rows)
    && (forall e | e in s.rows :: exists c :: Holds(s, c) && s.calls[c].eventId == e)
  }

  /** A step changes who holds a row only by claiming a free event or by the holder's own release. */
  lemma HoldsAfter(s: State, step: Step, c: nat)
    requires Enabled(s, step)
    ensures Holds(Do(s, step), c) <==>
            || (Holds(s, c) && step != Release(c))
            || (step == Claim(c) && s.calls[c].eventId !in s.rows)
    ensures Holds(Do(s, step), c) ==> c in s.calls && Do(s, step).calls[c].eventId == s.calls[c].eventId
    ensures Do(s, step).rows ==
            match step
            case Claim(d) => s.rows + {s.calls[d].eventId}
            case Release(d) => s.rows - {s.calls[d].eventId}
            case _ => s.rows
  {
  }

  lemma StepKeepsRows(s: State, step: Step, e: string)
    requires Inv(s) && Enabled(s, step) && e in Do(s, step).rows
    ensures exists c :: Holds(Do(s, step), c) && Do(s, step).calls[c].eventId == e
  {
    if e in s.rows {
      var c :| Holds(s, c) && s.calls[c].eventId == e;
      HoldsAfter(s, step, c);
      assert Holds(Do(s, step), c);
    } else {
      HoldsAfter(s, step, step.c);
      assert Holds(Do(s, step), step.c);
    }
  }

  lemma StepKeepsInv(s: State, step: Step)
    requires Inv(s) && Enabled(s, step)
    ensures Inv(Do(s, step))
  {
    var s' := Do(s, step);
    forall c, d | Holds(s', c) && Holds(s', d) && s'.calls[c].eventId == s'.calls[d].eventId ensures c == d {
      HoldsAfter(s, step, c);
      HoldsAfter(s, step, d);
    }
    forall c | Holds(s', c) ensures s'.calls[c].eventId in s'.rows {
      HoldsAfter(s, step, c);
      if step.Release? && Holds(s, c) {
        assert Holds(s, step.c);
      }
    }
    forall e | e in s'.rows ensures exists c :: Holds(s', c) && s'.calls[c].eventId == e {
      StepKeepsRows(s, step, e);
    }
  }

  predicate Valid(s: State, steps: seq<Step>)
    decreases |steps|
  {
    steps == [] || (Enabled(s, steps[0]) && Valid(Do(s, steps[0]), steps[1..]))
  }

  function Run(s: State, steps: seq<Step>): State
    requires Valid(s, steps)
    decreases |steps|
  {
    if steps == [] then s else Run(Do(s, steps[0]), steps[1..])
  }

  const Start := State({}, map[])

  lemma {:induction false} RunKeepsInv(s: State, steps: seq<Step>)
    requires Inv(s) && Valid(s, steps)
    ensures Inv(Run(s, steps))
    decreases |steps|
  {
    if steps != [] {
      StepKeepsInv(s, steps[0]);
      RunKeepsInv(Do(s, steps[0]), steps[1..]);
    }
  }

  /** One call by itself, from any state: it is skipped if the event's row is there; otherwise it claims
      the row, keeps it if its handler returns, and gives it back, so that the next call can claim it, if
      the handler throws. A call that dies in between keeps what it has claimed. */
  lemma OneCallExactly(s: State, c: nat, e: string)
    requires c !in s.calls
    ensures var arrived := [Arrive(c, e), Claim(c)];
            && Valid(s, arrived)
            && (e in s.rows ==>
                  Run(s, arrived) == State(s.rows, s.calls[c := Call(e, Skipped)]))
            && (e !in s.rows ==>
                  && Run(s, arrived) == State(s.rows + {e}, s.calls[c := Call(e, Running)])
                  && HandlerEnds(Run(s, arrived), c, e))
    ensures Enabled(Do(s, Arrive(c, e)), Crash(c))
            && Do(Do(s, Arrive(c, e)), Crash(c)) == State(s.rows, s.calls[c := Call(e, Crashed(false))])
  {
    var s1 := Do(s, Arrive(c, e));
    var s2 := Do(s1, Claim(c));
    assert [Arrive(c, e), Claim(c)][1..] == [Claim(c)];
    assert Valid(s1, [Claim(c)]) && Run(s1, [Claim(c)]) == s2;
    assert s.calls[c := Call(e, Waiting)][c := Call(e, Skipped)] == s.calls[c := Call(e, Skipped)];
    assert s.calls[c := Call(e, Waiting)][c := Call(e, Running)] == s.calls[c := Call(e, Running)];
    assert s.calls[c := Call(e, Waiting)][c := Call(e, Crashed(false))] == s.calls[c := Call(e, Crashed(false))];
  }

  /** The ways in which the handler of a claimed event can end. */
  predicate HandlerEnds(s: State, c: nat, e: string)
    requires c in s.calls
  {
    && Enabled(s, Succeed(c)) && Do(s, Succeed(c)) == State(s.rows, s.calls[c := Call(e, Succeeded)])
    && Enabled(s, Crash(c)) && Do(s, Crash(c)) == State(s.rows, s.calls[c := Call(e, Crashed(true))])
    && Enabled(s, Fail(c))
    && var failed := Do(s, Fail(c));
       && Enabled(failed, Crash(c)) && Do(failed, Crash(c)) == State(s.rows, s.calls[c := Call(e, Crashed(true))])
       && Enabled(failed, Release(c))
       && Do(failed, Release(c)) == State(s.rows - {e}, s.calls[c := Call(e, Released)])
  }

  /** In every run: two calls for one event are never both at work or finished successfully, the row
      is there while a handler works and ever after it succeeded, and a release leaves every row that
      another call holds. */
  lemma MutualExclusion(steps: seq<Step>, c: nat, d: nat)
    requires Valid(Start, steps) && c != d
    ensures var s := Run(Start, steps);
            && (Holds(s, c) && Holds(s, d) ==> s.calls[c].eventId != s.calls[d].eventId)
            && (Holds(s, c) ==> s.calls[c].eventId in s.rows)
            && (Enabled(s, Release(d)) && Holds(s, c) ==> s.calls[c].eventId in Do(s, Release(d)).rows)
  {
    RunKeepsInv(Start, steps);
    var s := Run(Start, steps);
    if Enabled(s, Release(d)) && Holds(s, c) {
      StepReleases(s, c, d);
    }
  }

  lemma StepReleases(s: State, c: nat, d: nat)
    requires Inv(s) && c != d && Enabled(s, Release(d)) && Holds(s, c)
    ensures s.calls[c].eventId in Do(s, Release(d)).rows
  {
  }

  /** A success is final: no continuation of the run lets another call for that event succeed. */
  lemma {:induction false} SuccessIsFinal(s: State, steps: seq<Step>, c: nat)
    requires Inv(s) && Valid(s, steps) && c in s.calls && s.calls[c].phase == Succeeded
    ensures var s' := Run(s, steps);
            && c in s'.calls && s'.calls[c] == s.calls[c]
            && forall d | d in s'.calls && s'.calls[d].phase == Succeeded ::
                 s'.calls[d].eventId == s.calls[c].eventId ==> d == c
    decreases |steps|
  {
    if steps == [] {
      assert Holds(s, c);
      assert forall d | d in s.calls && s.calls[d].phase == Succeeded :: Holds(s, d);
    } else {
      StepKeepsInv(s, steps[0]);
      SuccessIsFinal(Do(s, steps[0]), steps[1..], c);
    }
  }
}
