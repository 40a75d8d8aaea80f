/** From a saved feature event, through the relay and the inbox, to a recorded version, with reverts
    writing the same table of versions. */
module Delivery {
  import opened Common
  import opened Outbox
  import Inbox
  import RelayProtocol
  import opened Versions

  class VersioningConsumer {
    const inboxService: Inbox.InboxService
    const createVersion: CreateVersionUseCase

    constructor (inboxService: Inbox.InboxService, createVersion: CreateVersionUseCase)
      ensures this.inboxService == inboxService && this.createVersion == createVersion
    {
      this.inboxService := inboxService;
      this.createVersion := createVersion;
    }

    /** One undisturbed delivery, keyed by the correlation id. */
    method Handle(e: Event) returns (r: Result<bool, Inbox.ProcessError>)
      modifies inboxService, createVersion
      ensures var dup := e.correlationId in old(inboxService.inbox);
              var out := Record(old(createVersion.versions), e.payload);
              && (dup ==> r == Success(false) && inboxService.inbox == old(inboxService.inbox)
                          && createVersion.versions == old(createVersion.versions))
              && (!dup && out.Some? ==>
                    r == Success(true) && inboxService.inbox.Keys == old(inboxService.inbox).Keys + {e.correlationId}
                    && createVersion.versions == out.value)
              && (!dup && out.None? ==>
                    r == Failure(Inbox.HandlerFailed) && inboxService.inbox == old(inboxService.inbox)
                    && createVersion.versions == old(createVersion.versions))
    {
      var eventType := match e.payload
        case FeatureCreated(_, _, _) => "FeatureCreated"
        case FeatureUpdated(_, _, _, _, _) => "FeatureUpdated"
        case FeatureDeleted(_, _, _) => "FeatureDeleted";
      var inserted := inboxService.Claim(e.correlationId, eventType);
      if !inserted {
        return Success(false);
      }
      var ok;
      match e.payload {
        case FeatureCreated(f, snapshot, author) => ok := createVersion.CreateInitialVersion(f, snapshot, author);
        case FeatureUpdated(f, _, geometry, properties, author) =>
          ok := createVersion.CreateVersionSnapshot(f, None, geometry, properties, None, author);
        case FeatureDeleted(f, last, author) => ok := createVersion.CreateDeletionVersion(f, last, author);
      }
      r := inboxService.Finish(e.correlationId, ok);
    }
  }

  // ---- the whole pipeline, interleaved ----

  /** `origin` maps each handler call to the outbox row whose emit started it; `written` holds the
      calls whose INSERT has gone through. */
  datatype State = State(relay: RelayProtocol.State, inbox: Inbox.State,
                         origin: map<nat, nat>, written: set<nat>, versions: Versions)

  datatype Step =
    | Save(id: nat, event: Event)
    | Relay(relayStep: RelayProtocol.Step)               // fetch, commit, abort, clean up
    | Emit(w: nat, throws: bool, reached: bool, c: nat)  // an emit may throw before or after reaching the consumer
    | Handle(inboxStep: Inbox.Step)                      // claim, succeed, fail, release, crash
    | Write(c: nat)
    | Revert(f: string, target: int, number: int, author: string)  // a revert commits, disturbed or not

  ghost predicate Fresh(saved: map<nat, Event>, e: Event) {
    forall id | id in saved ::
      && saved[id].correlationId != e.correlationId
      && (saved[id].payload.FeatureCreated? && e.payload.FeatureCreated? ==>
            saved[id].payload.featureId != e.payload.featureId)
  }

  ghost predicate Enabled(s: State, step: Step) {
    match step
    case Save(id, e) => RelayProtocol.Enabled(s.relay, RelayProtocol.Insert(id, e)) && Fresh(s.relay.saved, e)
    case Relay(r) => !r.Insert? && !r.Emit? && RelayProtocol.Enabled(s.relay, r)
    case Emit(w, throws, reached, c) =>
      RelayProtocol.Enabled(s.relay, RelayProtocol.Emit(w, throws)) && c !in s.inbox.calls
      && RelayProtocol.Current(s.relay, w) in s.relay.tables.outbox
    case Handle(h) => !h.Arrive? && Inbox.Enabled(s.inbox, h) && (h.Succeed? ==> h.c in s.written)
    case Write(c) =>
      c in s.inbox.calls && s.inbox.calls[c].phase == Inbox.Running && c !in s.written
      && c in s.origin && s.origin[c] in s.relay.saved
      && Record(s.versions, s.relay.saved[s.origin[c]].payload).Some?
    case Revert(f, target, number, _) =>
      number >= 2 && (f, target) in s.versions && (f, number) !in s.versions
  }

  ghost function Do(s: State, step: Step): State
    requires Enabled(s, step)
  {
    match step
    case Save(id, e) => s.(relay := RelayProtocol.Do(s.relay, RelayProtocol.Insert(id, e)))
    case Relay(r) => s.(relay := RelayProtocol.Do(s.relay, r))
    case Emit(w, throws, reached, c) =>
      var id := RelayProtocol.Current(s.relay, w);
      var s1 := s.(relay := RelayProtocol.Do(s.relay, RelayProtocol.Emit(w, throws)));
      if reached
      then s1.(inbox := Inbox.Do(s.inbox, Inbox.Arrive(c, s.relay.tables.outbox[id].event.correlationId)),
               origin := s.origin[c := id])
      else s1
    case Handle(h) => s.(inbox := Inbox.Do(s.inbox, h))
    case Write(c) =>
      s.(versions := Record(s.versions, s.relay.saved[s.origin[c]].payload).value, written := s.written + {c})
    case Revert(f, target, number, author) =>
      s.(versions := s.versions[(f, number) := VersionRow(Reverted, s.versions[(f, target)].snapshot, author)])
  }

  ghost predicate FreshIds(saved: map<nat, Event>) {
    forall i, j | i in saved && j in saved && i != j ::
      && saved[i].correlationId != saved[j].correlationId
      && (saved[i].payload.FeatureCreated? && saved[j].payload.FeatureCreated? ==>
            saved[i].payload.featureId != saved[j].payload.featureId)
  }

  /** Every call stems from a saved event and is keyed by that event's correlation id. */
  ghost predicate CallsTraced(s: State) {
    && s.origin.Keys == s.inbox.calls.Keys
    && (forall c | c in s.inbox.calls :: s.origin[c] in s.relay.saved
          && s.inbox.calls[c].eventId == s.relay.saved[s.origin[c]].correlationId)
    && (forall c | c in s.inbox.calls && s.inbox.calls[c].phase == Inbox.Succeeded :: c in s.written)
    && s.written <= s.inbox.calls.Keys
  }

  /** Some handler call has written the version of an event with this payload. */
  ghost predicate WrittenFor(s: State, p: Payload) {
    exists c | c in s.written ::
      c in s.origin && s.origin[c] in s.relay.saved && s.relay.saved[s.origin[c]].payload == p
  }

  /** Where a version row comes from: an event that some call has written, or a revert. Whatever the
      number, its snapshot is that of the recorded creation, for nothing else is there to copy. */
  ghost predicate RowTraced(s: State, k: (string, int))
    requires k in s.versions
  {
    var row := s.versions[k];
    && (k.0, 1) in s.versions && s.versions[(k.0, 1)].changeType == Created
    && s.versions[(k.0, 1)].snapshot == row.snapshot
    && match row.changeType
       case Created => k.1 == 1 && WrittenFor(s, FeatureCreated(k.0, row.snapshot, row.authorId))
       case Updated => false
       case Reverted => k.1 >= 2
       case Deleted => (k.0, k.1 - 1) in s.versions && WrittenFor(s, FeatureDeleted(k.0, k.1 - 1, row.authorId))
  }

  /** What a call that has written left behind. */
  ghost predicate CallRecorded(s: State, c: nat)
    requires c in s.origin && s.origin[c] in s.relay.saved
  {
    match s.relay.saved[s.origin[c]].payload
    case FeatureCreated(f, snapshot, author) =>
      (f, 1) in s.versions && s.versions[(f, 1)] == VersionRow(Created, snapshot, author)
    case FeatureUpdated(_, _, _, _, _) => false
    case FeatureDeleted(_, _, _) => true
  }

  ghost predicate Inv(s: State) {
    && RelayProtocol.Inv(s.relay)
    && Inbox.Inv(s.inbox)
    && FreshIds(s.relay.saved)
    && CallsTraced(s)
    && Recorded(s)
  }

  ghost predicate Recorded(s: State) {
    && (forall k | k in s.versions :: RowTraced(s, k))
    && (forall c | c in s.written :: c in s.origin && s.origin[c] in s.relay.saved && CallRecorded(s, c))
  }

  ghost predicate Extends<K, V>(m: map<K, V>, n: map<K, V>) {
    forall k | k in m :: k in n && n[k] == m[k]
  }

  lemma RelayPart(s: State, step: Step)
    requires RelayProtocol.Inv(s.relay) && Enabled(s, step)
    ensures RelayProtocol.Inv(Do(s, step).relay)
    ensures Do(s, step).relay.saved == if step.Save? then s.relay.saved[step.id := step.event] else s.relay.saved
  {
    match step
    case Save(id, e) => RelayProtocol.StepKeepsInv(s.relay, RelayProtocol.Insert(id, e));
    case Relay(r) => RelayProtocol.StepKeepsInv(s.relay, r);
    case Emit(w, throws, _, _) => RelayProtocol.StepKeepsInv(s.relay, RelayProtocol.Emit(w, throws));
    case Handle(_) =>
    case Write(_) =>
    case Revert(_, _, _, _) =>
  }

  lemma InboxPart(s: State, step: Step)
    requires Inbox.Inv(s.inbox) && Enabled(s, step)
    ensures Inbox.Inv(Do(s, step).inbox)
  {
    match step
    case Emit(w, _, reached, c) =>
      if reached {
        Inbox.StepKeepsInv(s.inbox,
          Inbox.Arrive(c, s.relay.tables.outbox[RelayProtocol.Current(s.relay, w)].event.correlationId));
      }
    case Handle(h) => Inbox.StepKeepsInv(s.inbox, h);
    case _ =>
  }

  lemma EmitCalls(s: State, w: nat, throws: bool, reached: bool, c: nat)
    requires RelayProtocol.Placed(s.relay) && CallsTraced(s) && Enabled(s, Emit(w, throws, reached, c))
    ensures CallsTraced(Do(s, Emit(w, throws, reached, c)))
  {
  }

  lemma HandleCalls(s: State, h: Inbox.Step)
    requires CallsTraced(s) && Enabled(s, Handle(h))
    ensures CallsTraced(Do(s, Handle(h)))
  {
  }

  lemma CallsPart(s: State, step: Step)
    requires RelayProtocol.Placed(s.relay) && CallsTraced(s) && Enabled(s, step)
    requires Extends(s.relay.saved, Do(s, step).relay.saved)
    ensures CallsTraced(Do(s, step))
  {
    match step
    case Emit(w, throws, reached, c) => EmitCalls(s, w, throws, reached, c);
    case Handle(h) => HandleCalls(s, h);
    case Save(_, _) =>
    case Relay(_) =>
    case Write(_) =>
    case Revert(_, _, _, _) =>
  }

  lemma OriginsPart(s: State, step: Step)
    requires CallsTraced(s) && Enabled(s, step)
    ensures Extends(s.origin, Do(s, step).origin)
  {
  }

  lemma VersionsGrow(s: State, step: Step)
    requires Enabled(s, step)
    ensures Extends(s.versions, Do(s, step).versions)
  {
  }

  /** A row that was traced stays traced while events, calls and rows only come in addition. */
  lemma StaysTraced(s: State, t: State, k: (string, int))
    requires k in s.versions && RowTraced(s, k)
    requires Extends(s.relay.saved, t.relay.saved) && Extends(s.origin, t.origin)
    requires Extends(s.versions, t.versions) && s.written <= t.written
    ensures RowTraced(t, k)
  {
    var row := s.versions[k];
    assert forall p | WrittenFor(s, p) :: WrittenFor(t, p);
  }

  lemma WriteTraced(s: State, c: nat, k: (string, int))
    requires Recorded(s) && Enabled(s, Write(c)) && k in Do(s, Write(c)).versions && k !in s.versions
    ensures RowTraced(Do(s, Write(c)), k)
  {
    var p := s.relay.saved[s.origin[c]].payload;
    assert WrittenFor(Do(s, Write(c)), p);
    if p.FeatureDeleted? {
      assert RowTraced(s, (p.featureId, p.lastVersion));
    }
  }

  lemma RowPart(s: State, step: Step, k: (string, int))
    requires Recorded(s) && Enabled(s, step) && k in Do(s, step).versions
    requires Extends(s.relay.saved, Do(s, step).relay.saved) && Extends(s.origin, Do(s, step).origin)
    ensures RowTraced(Do(s, step), k)
  {
    VersionsGrow(s, step);
    if k in s.versions {
      assert RowTraced(s, k);
      StaysTraced(s, Do(s, step), k);
    } else if step.Write? {
      WriteTraced(s, step.c, k);
    } else {
      assert RowTraced(s, (step.f, step.target));
    }
  }

  lemma RecordedPart(s: State, step: Step)
    requires CallsTraced(s) && Recorded(s) && Enabled(s, step)
    requires Extends(s.relay.saved, Do(s, step).relay.saved) && Extends(s.origin, Do(s, step).origin)
    ensures Recorded(Do(s, step)) && Extends(s.versions, Do(s, step).versions)
  {
    var s' := Do(s, step);
    VersionsGrow(s, step);
    forall k | k in s'.versions ensures RowTraced(s', k) {
      RowPart(s, step, k);
    }
    forall c | c in s'.written ensures c in s'.origin && s'.origin[c] in s'.relay.saved && CallRecorded(s', c) {
      if c in s.written {
        assert CallRecorded(s, c);
      }
    }
  }

  lemma StepKeepsInv(s: State, step: Step)
    requires Inv(s) && Enabled(s, step)
    ensures Inv(Do(s, step)) && Extends(s.versions, Do(s, step).versions)
  {
    RelayPart(s, step);
    InboxPart(s, step);
    CallsPart(s, step);
    OriginsPart(s, step);
    RecordedPart(s, step);
  }

  ghost predicate Valid(s: State, steps: seq<Step>)
    decreases |steps|
  {
    steps == [] || (Enabled(s, steps[0]) && Valid(Do(s, steps[0]), steps[1..]))
  }

  ghost function Run(s: State, steps: seq<Step>): State
    requires Valid(s, steps)
    decreases |steps|
  {
    if steps == [] then s else Run(Do(s, steps[0]), steps[1..])
  }

  const Start := State(RelayProtocol.Start, Inbox.Start, map[], {}, map[])

  /** The invariant lasts, and recorded versions are never changed or removed. */
  lemma {:induction false} RunKeepsInv(s: State, steps: seq<Step>)
    requires Inv(s) && Valid(s, steps)
    ensures Inv(Run(s, steps))
    ensures Extends(s.versions, Run(s, steps).versions)
    decreases |steps|
  {
    if steps != [] {
      StepKeepsInv(s, steps[0]);
      RunKeepsInv(Do(s, steps[0]), steps[1..]);
    }
  }

  /** However often rounds abort and re-emit, at most one handler call per saved event ever succeeds;
      if the event is a creation, the feature's version 1 is then exactly its snapshot; and no call
      for an update ever succeeds. */
  lemma HandledAtMostOnce(steps: seq<Step>, c: nat, d: nat)
    requires Valid(Start, steps)
    requires var calls := Run(Start, steps).inbox.calls;
             c in calls && d in calls && calls[c].phase == Inbox.Succeeded && calls[d].phase == Inbox.Succeeded
    ensures var s := Run(Start, steps);
            && c in s.origin && d in s.origin && s.origin[c] in s.relay.saved
            && (s.origin[c] == s.origin[d] ==> c == d)
            && match s.relay.saved[s.origin[c]].payload
               case FeatureCreated(f, snapshot, author) =>
                 (f, 1) in s.versions && s.versions[(f, 1)] == VersionRow(Created, snapshot, author)
               case FeatureUpdated(_, _, _, _, _) => false
               case FeatureDeleted(_, _, _) => true
  {
    var s := Run(Start, steps);
    RunKeepsInv(Start, steps);
    assert Inbox.Holds(s.inbox, c) && Inbox.Holds(s.inbox, d);
    assert c in s.written && CallRecorded(s, c);
  }

  /** A claimed call writes exactly the record of its event, if that can be recorded, and then can succeed,
      and not before. */
  lemma ClaimedCallWrites(s: State, c: nat)
    requires CallsTraced(s) && c in s.inbox.calls && s.inbox.calls[c].phase == Inbox.Running && c !in s.written
    ensures c in s.origin && s.origin[c] in s.relay.saved
    ensures var e := s.relay.saved[s.origin[c]];
            && !Enabled(s, Handle(Inbox.Succeed(c)))
            && (Enabled(s, Write(c)) <==> Record(s.versions, e.payload).Some?)
            && (Enabled(s, Write(c)) ==>
                  var t := Do(s, Write(c));
                  && t == s.(versions := Record(s.versions, e.payload).value, written := s.written + {c})
                  && Enabled(t, Handle(Inbox.Succeed(c))))
  {
  }

  /** A claimed call can fail at any time; it then gives its claim back and records nothing. */
  lemma ClaimedCallCanFail(s: State, c: nat)
    requires c in s.inbox.calls && s.inbox.calls[c].phase == Inbox.Running
    ensures && Enabled(s, Handle(Inbox.Fail(c)))
            && var failed := Do(s, Handle(Inbox.Fail(c)));
               && Enabled(failed, Handle(Inbox.Release(c)))
               && Do(failed, Handle(Inbox.Release(c))).inbox.rows
                  == s.inbox.rows - {s.inbox.calls[c].eventId}
               && Do(failed, Handle(Inbox.Release(c))).versions == s.versions
  {
  }

  /** Rounds are fetched, committed, lost and cleaned up as if nobody listened; only a call that is at work
      and has not written yet can write; a revert can take any free number from 2 on. */
  lemma OthersMoveFreely(s: State, r: RelayProtocol.Step, c: nat, f: string, target: int, number: int, author: string)
    ensures Enabled(s, Relay(r)) <==>
            RelayProtocol.Enabled(s.relay, r) && (r.Fetch? || r.Commit? || r.Abort? || r.CleanUp?)
    ensures Enabled(s, Relay(r)) ==> Do(s, Relay(r)) == s.(relay := RelayProtocol.Do(s.relay, r))
    ensures Enabled(s, Write(c)) ==>
              c in s.inbox.calls && s.inbox.calls[c].phase == Inbox.Running && c !in s.written
    ensures Enabled(s, Revert(f, target, number, author)) <==>
            number > 1 && (f, target) in s.versions && (f, number) !in s.versions
  {
  }

  /** An emit that reaches the consumer starts a call for the event under its correlation id, and one
      that does not reach it starts none; either way the relay goes on. */
  lemma EmitStartsCall(s: State, w: nat, throws: bool, reached: bool, c: nat)
    requires Inv(s) && RelayProtocol.Enabled(s.relay, RelayProtocol.Emit(w, throws)) && c !in s.inbox.calls
    ensures Enabled(s, Emit(w, throws, reached, c))
    ensures var t, id := Do(s, Emit(w, throws, reached, c)), RelayProtocol.Current(s.relay, w);
            && id in s.relay.saved
            && t.relay == RelayProtocol.Do(s.relay, RelayProtocol.Emit(w, throws))
            && t.inbox.rows == s.inbox.rows && t.versions == s.versions && t.written == s.written
            && t.origin == (if reached then s.origin[c := id] else s.origin)
            && t.inbox.calls == if reached
                                then s.inbox.calls[c := Inbox.Call(s.relay.saved[id].correlationId, Inbox.Waiting)]
                                else s.inbox.calls
  {
    RelayProtocol.HeldRows(s.relay, w, RelayProtocol.Current(s.relay, w));
  }

  /** Event `id` was saved and announces the creation of feature `f`. */
  predicate Creates(s: State, id: nat, f: string) {
    id in s.relay.saved && s.relay.saved[id].payload.FeatureCreated? && s.relay.saved[id].payload.featureId == f
  }

  lemma CreationIsUnique(s: State, k: (string, int))
    requires FreshIds(s.relay.saved) && k in s.versions && RowTraced(s, k) && s.versions[k].changeType == Created
    ensures exists id :: Creates(s, id, k.0)
    ensures forall id | Creates(s, id, k.0) ::
              s.relay.saved[id].payload == FeatureCreated(k.0, s.versions[k].snapshot, s.versions[k].authorId)
  {
    var c :| c in s.written && c in s.origin && s.origin[c] in s.relay.saved
      && s.relay.saved[s.origin[c]].payload == FeatureCreated(k.0, s.versions[k].snapshot, s.versions[k].authorId);
    assert Creates(s, s.origin[c], k.0);
  }

  /** Version 1 of a feature is the snapshot of the one creation event saved for it. */
  ghost predicate CreationTrue(s: State, f: string) {
    && (f, 1) in s.versions && s.versions[(f, 1)].changeType == Created
    && (exists id :: Creates(s, id, f))
    && (forall id | Creates(s, id, f) ::
          s.relay.saved[id].payload == FeatureCreated(f, s.versions[(f, 1)].snapshot, s.versions[(f, 1)].authorId))
  }

  /** What is said of one recorded version. */
  ghost predicate VersionTrue(s: State, k: (string, int))
    requires k in s.versions
  {
    && CreationTrue(s, k.0) && s.versions[k].snapshot == s.versions[(k.0, 1)].snapshot
    && s.versions[k].changeType != Updated
    && (s.versions[k].changeType == Created <==> k.1 == 1)
    && (s.versions[k].changeType == Deleted ==> (k.0, k.1 - 1) in s.versions)
  }

  lemma TracedIsTrue(s: State, k: (string, int))
    requires FreshIds(s.relay.saved) && Recorded(s) && k in s.versions
    ensures VersionTrue(s, k)
  {
    assert RowTraced(s, k) && RowTraced(s, (k.0, 1));
    CreationIsUnique(s, (k.0, 1));
  }

  /** Whatever is delivered, re-delivered and reverted, and in whatever order: each feature with any
      recorded version has its one saved creation as version 1, and every other recorded version, a
      revert or a deletion, repeats that snapshot. No update is ever recorded, so a revert has nothing
      but the creation to go back to. */
  lemma RecordedVersionsAreTrue(steps: seq<Step>, k: (string, int))
    requires Valid(Start, steps) && k in Run(Start, steps).versions
    ensures VersionTrue(Run(Start, steps), k)
  {
    RunKeepsInv(Start, steps);
    TracedIsTrue(Run(Start, steps), k);
  }
}
