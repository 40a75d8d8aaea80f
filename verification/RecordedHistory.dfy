/** Writers, reverts, relay and consumers in one system: what the table of versions says of the features. */
module RecordedHistory {
  import opened Common
  import opened Outbox
  import opened Features
  import opened Versions
  import RelayProtocol
  import Delivery
  import FeatureWrites

  datatype State = State(writers: FeatureWrites.State, delivery: Delivery.State)

  datatype Step =
    | Write(write: FeatureWrites.Step, correlationId: string)  // a commit also saves its event
    | Deliver(deliver: Delivery.Step)
    | Revert(c: nat, f: string, target: int, userId: string)  // undisturbed: feature and version row at once

  /** The event that client `c` is about to save. */
  function EventOf(w: FeatureWrites.State, c: nat, correlationId: string): Event
    requires FeatureWrites.ClientOf(w, c).Writing?
  {
    Event(FeatureWrites.Announced(w.clients[c].f, w.clients[c].write), correlationId)
  }

  function SaveOf(w: FeatureWrites.State, c: nat, correlationId: string): Delivery.Step
    requires FeatureWrites.Enabled(w, FeatureWrites.Commit(c))
  {
    Delivery.Save(w.clients[c].ticket.value, EventOf(w, c, correlationId))
  }

  function RevertOf(s: State, c: nat, f: string, target: int, userId: string): FeatureWrites.Step
    requires (f, target) in s.delivery.versions
  {
    FeatureWrites.Revert(c, f, s.delivery.versions[(f, target)].snapshot, userId)
  }

  ghost predicate Enabled(s: State, step: Step) {
    match step
    case Write(ws, corr) =>
      && !ws.Revert? && FeatureWrites.Enabled(s.writers, ws)
      && (ws.Commit? ==> Delivery.Enabled(s.delivery, SaveOf(s.writers, ws.c, corr)))
    case Deliver(d) => !d.Save? && !d.Revert? && Delivery.Enabled(s.delivery, d)
    case Revert(c, f, target, userId) =>
      && (f, target) in s.delivery.versions
      && FeatureWrites.Enabled(s.writers, RevertOf(s, c, f, target, userId))
      && Delivery.Enabled(s.delivery, Delivery.Revert(f, target, s.writers.rows[f].version + 1, userId))
  }

  ghost function Do(s: State, step: Step): State
    requires Enabled(s, step)
  {
    match step
    case Write(ws, corr) =>
      State(FeatureWrites.Do(s.writers, ws),
            if ws.Commit? then Delivery.Do(s.delivery, SaveOf(s.writers, ws.c, corr)) else s.delivery)
    case Deliver(d) => s.(delivery := Delivery.Do(s.delivery, d))
    case Revert(c, f, target, userId) =>
      State(FeatureWrites.Do(s.writers, RevertOf(s, c, f, target, userId)),
            Delivery.Do(s.delivery, Delivery.Revert(f, target, s.writers.rows[f].version + 1, userId)))
  }

  // ---- events are true ----

  /** The relay's events are the rows of the writers' outbox. */
  ghost predicate Linked(s: State) {
    && s.delivery.relay.saved.Keys == s.writers.outbox.Keys
    && forall id | id in s.writers.outbox :: s.delivery.relay.saved[id].payload == s.writers.outbox[id]
  }

  lemma {:induction false} EventIsTold(outbox: map<nat, Payload>, f: string, n: nat, id: nat)
    requires id in outbox && id < n && outbox[id].featureId == f
    ensures outbox[id] in FeatureWrites.EventsOf(outbox, f, n)
    decreases n
  {
    if id < n - 1 {
      EventIsTold(outbox, f, n - 1, id);
    }
  }

  ghost predicate Gone(w: FeatureWrites.State, f: string) {
    f in w.rows && w.rows[f].isDeleted
  }

  /** What an event in the outbox says about the feature it names. */
  lemma EventIsTrue(w: FeatureWrites.State, id: nat)
    requires FeatureWrites.Inv(w) && id in w.outbox
    ensures var e := w.outbox[id];
            var h := FeatureWrites.HistoryOf(w, e.featureId);
            && e.featureId in w.rows && |h| >= 1
            && (e.FeatureCreated? ==> h[0].origin.Initial? && e == CreatedEvent(e.featureId, h[0].row))
            && (e.FeatureDeleted? ==> Gone(w, e.featureId) && e.lastVersion == |h|)
  {
    var f := w.outbox[id].featureId;
    var h := FeatureWrites.HistoryOf(w, f);
    assert FeatureWrites.EventsTell(w, f) && FeatureWrites.RowOk(w, f);
    EventIsTold(w.outbox, f, w.nextId, id);
    FeatureWrites.InitialIsFirst(h);
    FeatureWrites.StoryTells(f, h);
  }

  // ---- the parts move freely ----

  /** Writers and pipeline take their own steps as if alone. A commit of a writer saves its event, under
      the ticket it drew, at the same moment. */
  lemma PartsMoveFreely(s: State, ws: FeatureWrites.Step, ds: Delivery.Step, correlationId: string)
    ensures FeatureWrites.Enabled(s.writers, ws) && !ws.Commit? && !ws.Revert? ==>
              Enabled(s, Write(ws, correlationId))
              && Do(s, Write(ws, correlationId)) == State(FeatureWrites.Do(s.writers, ws), s.delivery)
    ensures Enabled(s, Write(ws, correlationId)) && ws.Commit? ==>
              var k, t := s.writers.clients[ws.c], Do(s, Write(ws, correlationId));
              && t.writers == FeatureWrites.Do(s.writers, ws)
              && t.delivery.relay.saved == s.delivery.relay.saved[k.ticket.value :=
                   Event(FeatureWrites.Announced(k.f, k.write), correlationId)]
              && t.delivery.inbox == s.delivery.inbox && t.delivery.versions == s.delivery.versions
    ensures Delivery.Enabled(s.delivery, ds) && !ds.Save? && !ds.Revert? ==>
              Enabled(s, Deliver(ds)) && Do(s, Deliver(ds)) == State(s.writers, Delivery.Do(s.delivery, ds))
  {
  }

  /** A revert of a live, unlocked feature to a recorded version goes through if its number is free. */
  lemma RevertCanCommit(s: State, c: nat, f: string, target: int, userId: string)
    requires (f, target) in s.delivery.versions && FeatureWrites.Enabled(s.writers, RevertOf(s, c, f, target, userId))
    requires s.writers.rows[f].version >= 1 && (f, s.writers.rows[f].version + 1) !in s.delivery.versions
    ensures Enabled(s, Revert(c, f, target, userId))
  {
  }

  /** A revert writes the recorded snapshot of its target into the feature and into the version row under
      the next number. */
  lemma RevertWritesBoth(s: State, c: nat, f: string, target: int, userId: string)
    requires Enabled(s, Revert(c, f, target, userId))
    ensures f in s.writers.rows
    ensures var t, row := Do(s, Revert(c, f, target, userId)), s.writers.rows[f];
            var snapshot := s.delivery.versions[(f, target)].snapshot;
            && t.writers.rows == s.writers.rows[f := row.(geometry := snapshot.geometry, name := snapshot.name,
                                   properties := snapshot.properties, version := row.version + 1, updatedBy := userId)]
            && t.writers.outbox == s.writers.outbox
            && t.delivery == s.delivery.(versions := s.delivery.versions[(f, row.version + 1) :=
                                           VersionRow(Reverted, snapshot, userId)])
  {
  }

  // ---- the table of versions is true ----

  function HistoryOf(s: State, f: string): seq<FeatureWrites.Version> {
    FeatureWrites.HistoryOf(s.writers, f)
  }

  /** What a row says of the feature's committed history `h`; `gone` if the feature is deleted. */
  ghost predicate RowTrue(h: seq<FeatureWrites.Version>, gone: bool, vs: Versions, k: (string, int))
    requires k in vs
  {
    match vs[k].changeType
    case Created => k.1 == 1 <= |h| && vs[k].snapshot == FeatureWrites.SnapshotOf(h[0].row)
    case Updated => false
    case Reverted =>
      2 <= k.1 <= |h| && h[k.1 - 1].origin.Restore? && vs[k].snapshot == FeatureWrites.SnapshotOf(h[k.1 - 1].row)
    case Deleted => gone && k.1 == |h| + 1 && (k.0, |h|) in vs
  }

  /** Every revert is recorded under its number. */
  ghost predicate RestoresRecorded(h: seq<FeatureWrites.Version>, vs: Versions, f: string) {
    forall i | 1 <= i < |h| && h[i].origin.Restore? :: (f, i + 1) in vs
  }

  /** If `e` deletes a recorded version other than the first, the deletion is recorded. */
  ghost predicate DeletionDone(vs: Versions, e: Payload) {
    e.FeatureDeleted? && e.lastVersion >= 2 && (e.featureId, e.lastVersion) in vs ==>
      (e.featureId, e.lastVersion + 1) in vs
  }

  ghost predicate RowsTrue(s: State) {
    forall k | k in s.delivery.versions :: RowTrue(HistoryOf(s, k.0), Gone(s.writers, k.0), s.delivery.versions, k)
  }

  ghost predicate RevertsRecorded(s: State) {
    forall f :: RestoresRecorded(HistoryOf(s, f), s.delivery.versions, f)
  }

  function EventFor(d: Delivery.State, c: nat): Payload
    requires c in d.origin && d.origin[c] in d.relay.saved
  {
    d.relay.saved[d.origin[c]].payload
  }

  ghost predicate DeletionsDone(s: State) {
    forall c | c in s.delivery.written ::
      && c in s.delivery.origin && s.delivery.origin[c] in s.delivery.relay.saved
      && DeletionDone(s.delivery.versions, EventFor(s.delivery, c))
  }

  ghost predicate Inv(s: State) {
    && FeatureWrites.Inv(s.writers) && Delivery.Inv(s.delivery)
    && Linked(s) && RowsTrue(s) && RevertsRecorded(s) && DeletionsDone(s)
  }

  /** A commit with a fresh correlation id can always be saved: the outbox id is new, and a feature is
      never created twice. */
  lemma CommitCanBeSaved(s: State, c: nat, correlationId: string)
    requires FeatureWrites.Inv(s.writers) && Linked(s) && FeatureWrites.Enabled(s.writers, FeatureWrites.Commit(c))
    requires forall id | id in s.delivery.relay.saved :: s.delivery.relay.saved[id].correlationId != correlationId
    ensures Enabled(s, Write(FeatureWrites.Commit(c), correlationId))
  {
    var w := s.writers;
    assert FeatureWrites.ClientOk(w, c);
    forall id | id in w.outbox ensures w.outbox[id].featureId in w.rows {
      EventIsTrue(w, id);
    }
  }

  // ---- a step of the writers ----

  /** What a writer's step does to one feature: nothing, or it adds a version, or it deletes it. */
  ghost predicate Effect(w: FeatureWrites.State, w': FeatureWrites.State, f: string, reverted: set<string>) {
    var h, h' := FeatureWrites.HistoryOf(w, f), FeatureWrites.HistoryOf(w', f);
    && h <= h' && |h'| <= |h| + 1 && (Gone(w, f) ==> Gone(w', f) && h' == h)
    && (|h'| > |h| ==> (h'[|h|].origin.Restore? <==> f in reverted))
  }

  lemma WriterEffect(w: FeatureWrites.State, ws: FeatureWrites.Step, f: string)
    requires FeatureWrites.Inv(w) && FeatureWrites.Enabled(w, ws)
    ensures Effect(w, FeatureWrites.Do(w, ws), f, if ws.Revert? then {ws.f} else {})
  {
    assert FeatureWrites.RowOk(w, f);
    if ws.Commit? {
      assert FeatureWrites.ClientOk(w, ws.c);
    }
  }

  /** A true row stays true: histories only grow, and a deleted feature has got its last version. */
  lemma RowStaysTrue(s: State, t: State, k: (string, int), reverted: set<string>)
    requires k in s.delivery.versions && Delivery.Extends(s.delivery.versions, t.delivery.versions)
    requires RowTrue(HistoryOf(s, k.0), Gone(s.writers, k.0), s.delivery.versions, k)
    requires Effect(s.writers, t.writers, k.0, reverted)
    ensures RowTrue(HistoryOf(t, k.0), Gone(t.writers, k.0), t.delivery.versions, k)
  {
    var h, h' := HistoryOf(s, k.0), HistoryOf(t, k.0);
    assert forall i | 0 <= i < |h| :: h'[i] == h[i];
  }

  lemma WriteKeepsRecords(s: State, ws: FeatureWrites.Step, correlationId: string)
    requires FeatureWrites.Inv(s.writers) && Enabled(s, Write(ws, correlationId))
    requires RowsTrue(s) && RevertsRecorded(s)
    ensures RowsTrue(Do(s, Write(ws, correlationId))) && RevertsRecorded(Do(s, Write(ws, correlationId)))
  {
    var t := Do(s, Write(ws, correlationId));
    assert t.delivery.versions == s.delivery.versions;
    forall f ensures Effect(s.writers, t.writers, f, {}) {
      WriterEffect(s.writers, ws, f);
    }
    WritersKeepRecords(s, t);
  }

  lemma WritersKeepRecords(s: State, t: State)
    requires RowsTrue(s) && RevertsRecorded(s) && t.delivery.versions == s.delivery.versions
    requires forall f :: Effect(s.writers, t.writers, f, {})
    ensures RowsTrue(t) && RevertsRecorded(t)
  {
    forall k | k in t.delivery.versions
      ensures RowTrue(HistoryOf(t, k.0), Gone(t.writers, k.0), t.delivery.versions, k)
    {
      RowStaysTrue(s, t, k, {});
    }
    forall f ensures RestoresRecorded(HistoryOf(t, f), t.delivery.versions, f) {
      assert Effect(s.writers, t.writers, f, {});
      assert RestoresRecorded(HistoryOf(s, f), s.delivery.versions, f);
    }
  }

  lemma WriteKeepsLinks(s: State, ws: FeatureWrites.Step, correlationId: string)
    requires Enabled(s, Write(ws, correlationId)) && Linked(s) && DeletionsDone(s)
    ensures Linked(Do(s, Write(ws, correlationId))) && DeletionsDone(Do(s, Write(ws, correlationId)))
  {
  }

  // ---- a step of the pipeline ----

  lemma DeliverKeepsSaved(d: Delivery.State, ds: Delivery.Step)
    requires Delivery.Enabled(d, ds) && !ds.Save?
    ensures Delivery.Do(d, ds).relay.saved == d.relay.saved
  {
  }

  /** What one handler's insert adds is true of the feature it names. */
  lemma RecordIsTrue(h: seq<FeatureWrites.Version>, gone: bool, vs: Versions, e: Payload, k: (string, int))
    requires Record(vs, e).Some? && k in Record(vs, e).value && k !in vs && |h| >= 1
    requires e.FeatureCreated? ==> e == CreatedEvent(e.featureId, h[0].row)
    requires e.FeatureDeleted? ==> gone && e.lastVersion == |h|
    ensures k.0 == e.featureId && RowTrue(h, gone, Record(vs, e).value, k)
  {
  }

  lemma InsertKeepsRows(s: State, c: nat)
    requires FeatureWrites.Inv(s.writers) && Linked(s) && RowsTrue(s) && Enabled(s, Deliver(Delivery.Write(c)))
    ensures RowsTrue(Do(s, Deliver(Delivery.Write(c))))
  {
    var e, vs := EventFor(s.delivery, c), s.delivery.versions;
    var t := Do(s, Deliver(Delivery.Write(c)));
    EventIsTrue(s.writers, s.delivery.origin[c]);
    forall k | k in t.delivery.versions
      ensures RowTrue(HistoryOf(t, k.0), Gone(t.writers, k.0), t.delivery.versions, k)
    {
      if k in vs {
        RowStaysTrue(s, t, k, {});
      } else {
        RecordIsTrue(HistoryOf(s, k.0), Gone(s.writers, k.0), vs, e, k);
      }
    }
  }

  /** An insert records its own deletion, and never one that another deletion was waiting for. */
  lemma InsertKeepsDeletions(s: State, c: nat)
    requires FeatureWrites.Inv(s.writers) && Linked(s) && DeletionsDone(s) && Enabled(s, Deliver(Delivery.Write(c)))
    ensures DeletionsDone(Do(s, Deliver(Delivery.Write(c))))
  {
    var e := EventFor(s.delivery, c);
    var t := Do(s, Deliver(Delivery.Write(c)));
    EventIsTrue(s.writers, s.delivery.origin[c]);
    forall b | b in t.delivery.written
      ensures b in t.delivery.origin && t.delivery.origin[b] in t.delivery.relay.saved
      ensures DeletionDone(t.delivery.versions, EventFor(t.delivery, b))
    {
      if b != c {
        EventIsTrue(s.writers, s.delivery.origin[b]);
        assert DeletionDone(s.delivery.versions, EventFor(s.delivery, b));
      }
    }
  }

  lemma DeliverKeepsRecords(s: State, ds: Delivery.Step)
    requires FeatureWrites.Inv(s.writers) && Linked(s) && Enabled(s, Deliver(ds))
    requires Delivery.CallsTraced(s.delivery) && RowsTrue(s) && RevertsRecorded(s) && DeletionsDone(s)
    ensures var t := Do(s, Deliver(ds)); Linked(t) && RowsTrue(t) && RevertsRecorded(t) && DeletionsDone(t)
  {
    DeliverKeepsSaved(s.delivery, ds);
    if ds.Write? {
      InsertKeepsRows(s, ds.c);
      InsertKeepsDeletions(s, ds.c);
      InsertKeepsReverts(s, ds.c);
    } else {
      OtherDeliveries(s, ds);
    }
  }

  lemma InsertKeepsReverts(s: State, c: nat)
    requires RevertsRecorded(s) && Enabled(s, Deliver(Delivery.Write(c)))
    ensures RevertsRecorded(Do(s, Deliver(Delivery.Write(c))))
  {
    Delivery.VersionsGrow(s.delivery, Delivery.Write(c));
    var t := Do(s, Deliver(Delivery.Write(c)));
    forall f ensures RestoresRecorded(HistoryOf(t, f), t.delivery.versions, f) {
      assert RestoresRecorded(HistoryOf(s, f), s.delivery.versions, f);
    }
  }

  lemma OtherDeliveries(s: State, ds: Delivery.Step)
    requires Enabled(s, Deliver(ds)) && !ds.Write? && Delivery.CallsTraced(s.delivery)
    requires RowsTrue(s) && RevertsRecorded(s) && DeletionsDone(s)
    ensures var t := Do(s, Deliver(ds)); RowsTrue(t) && RevertsRecorded(t) && DeletionsDone(t)
  {
    var t := Do(s, Deliver(ds));
    DeliverKeepsSaved(s.delivery, ds);
    Delivery.OriginsPart(s.delivery, ds);
    assert t.delivery.versions == s.delivery.versions && t.delivery.written == s.delivery.written;
    forall f ensures RestoresRecorded(HistoryOf(t, f), t.delivery.versions, f) {
      assert RestoresRecorded(HistoryOf(s, f), s.delivery.versions, f);
    }
  }

  // ---- a revert ----

  /** A revert adds a restored version to one live feature and its row, under the same number, to the
      table of versions, and touches nothing else. */
  ghost predicate Reverting(s: State, t: State, f: string) {
    var h, h', vs := HistoryOf(s, f), HistoryOf(t, f), s.delivery.versions;
    && (forall g :: Effect(s.writers, t.writers, g, {f}))
    && !Gone(s.writers, f) && |h'| == |h| + 1 && |h| >= 1 && h'[|h|].origin.Restore?
    && (f, |h| + 1) !in vs
    && (exists author :: t.delivery.versions ==
          vs[(f, |h| + 1) := VersionRow(Reverted, FeatureWrites.SnapshotOf(h'[|h|].row), author)])
    && t.delivery.relay.saved == s.delivery.relay.saved && t.delivery.origin == s.delivery.origin
    && t.delivery.written == s.delivery.written && t.writers.outbox == s.writers.outbox
  }

  lemma RevertEffect(s: State, c: nat, f: string, target: int, userId: string)
    requires FeatureWrites.Inv(s.writers) && Enabled(s, Revert(c, f, target, userId))
    ensures Reverting(s, Do(s, Revert(c, f, target, userId)), f)
  {
    var t := Do(s, Revert(c, f, target, userId));
    forall g ensures Effect(s.writers, t.writers, g, {f}) {
      WriterEffect(s.writers, RevertOf(s, c, f, target, userId), g);
    }
    assert FeatureWrites.RowOk(s.writers, f);
    var snapshot := s.delivery.versions[(f, target)].snapshot;
    assert FeatureWrites.SnapshotOf(t.writers.rows[f]) == snapshot;
    assert t.delivery.versions
        == s.delivery.versions[(f, |HistoryOf(s, f)| + 1) := VersionRow(Reverted, snapshot, userId)];
  }

  lemma RevertKeepsRows(s: State, t: State, f: string)
    requires Reverting(s, t, f) && RowsTrue(s)
    ensures RowsTrue(t)
  {
    forall k | k in t.delivery.versions
      ensures RowTrue(HistoryOf(t, k.0), Gone(t.writers, k.0), t.delivery.versions, k)
    {
      if k in s.delivery.versions {
        RowStaysTrue(s, t, k, {f});
      }
    }
  }

  lemma RevertKeepsReverts(s: State, t: State, f: string)
    requires Reverting(s, t, f) && RevertsRecorded(s)
    ensures RevertsRecorded(t)
  {
    forall g ensures RestoresRecorded(HistoryOf(t, g), t.delivery.versions, g) {
      assert Effect(s.writers, t.writers, g, {f});
      assert RestoresRecorded(HistoryOf(s, g), s.delivery.versions, g);
    }
  }

  lemma RevertKeepsDeletions(s: State, t: State, f: string)
    requires FeatureWrites.Inv(s.writers) && Linked(s) && Reverting(s, t, f) && DeletionsDone(s)
    ensures DeletionsDone(t)
  {
    forall c | c in t.delivery.written
      ensures c in t.delivery.origin && t.delivery.origin[c] in t.delivery.relay.saved
      ensures DeletionDone(t.delivery.versions, EventFor(t.delivery, c))
    {
      EventIsTrue(s.writers, s.delivery.origin[c]);
      assert DeletionDone(s.delivery.versions, EventFor(s.delivery, c));
    }
  }

  lemma RevertKeepsRecords(s: State, c: nat, f: string, target: int, userId: string)
    requires FeatureWrites.Inv(s.writers) && Linked(s) && Enabled(s, Revert(c, f, target, userId))
    requires RowsTrue(s) && RevertsRecorded(s) && DeletionsDone(s)
    ensures var t := Do(s, Revert(c, f, target, userId));
            Linked(t) && RowsTrue(t) && RevertsRecorded(t) && DeletionsDone(t)
  {
    var t := Do(s, Revert(c, f, target, userId));
    RevertEffect(s, c, f, target, userId);
    RevertKeepsRows(s, t, f);
    RevertKeepsReverts(s, t, f);
    RevertKeepsDeletions(s, t, f);
  }

  // ---- every step ----

  lemma WritersKeepInv(s: State, step: Step)
    requires FeatureWrites.Inv(s.writers) && Enabled(s, step)
    ensures FeatureWrites.Inv(Do(s, step).writers)
  {
    match step
    case Write(ws, _) => FeatureWrites.StepKeepsInv(s.writers, ws);
    case Deliver(_) =>
    case Revert(c, f, target, userId) => FeatureWrites.StepKeepsInv(s.writers, RevertOf(s, c, f, target, userId));
  }

  lemma SavingKeepsInv(s: State, ws: FeatureWrites.Step, correlationId: string)
    requires Delivery.Inv(s.delivery) && Enabled(s, Write(ws, correlationId)) && ws.Commit?
    ensures Delivery.Inv(Do(s, Write(ws, correlationId)).delivery)
  {
    Delivery.StepKeepsInv(s.delivery, SaveOf(s.writers, ws.c, correlationId));
  }

  lemma DeliveredRevert(s: State, step: Step) returns (ds: Delivery.Step)
    requires step.Revert? && Enabled(s, step)
    ensures Delivery.Enabled(s.delivery, ds) && Do(s, step).delivery == Delivery.Do(s.delivery, ds)
  {
    ds := Delivery.Revert(step.f, step.target, s.writers.rows[step.f].version + 1, step.userId);
  }

  lemma DeliveryKeepsInv(s: State, step: Step)
    requires Delivery.Inv(s.delivery) && Enabled(s, step)
    ensures Delivery.Inv(Do(s, step).delivery)
  {
    if step.Deliver? {
      Delivery.StepKeepsInv(s.delivery, step.deliver);
    } else if step.Revert? {
      var ds := DeliveredRevert(s, step);
      Delivery.StepKeepsInv(s.delivery, ds);
    } else if step.write.Commit? {
      SavingKeepsInv(s, step.write, step.correlationId);
    }
  }

  lemma StepKeepsInv(s: State, step: Step)
    requires Inv(s) && Enabled(s, step)
    ensures Inv(Do(s, step))
  {
    WritersKeepInv(s, step);
    DeliveryKeepsInv(s, step);
    match step
    case Write(ws, corr) =>
      WriteKeepsRecords(s, ws, corr);
      WriteKeepsLinks(s, ws, corr);
    case Deliver(ds) => DeliverKeepsRecords(s, ds);
    case Revert(c, f, target, userId) => RevertKeepsRecords(s, c, f, target, userId);
  }

  // ---- runs ----

  ghost predicate Valid(s: State, steps: seq<Step>)
    decreases |steps|
  {
    steps == [] || (Enabled(s, steps[0]) && Valid(Do(s, steps[0]), steps[1..]))
  }

  ghost function Run(s: State, steps: seq<Step>): State
    requires Valid(s, steps)
    decreases |steps|
  {
    if steps == [] then s else Run(Do(s, steps[0]), steps[1..])
  }

  const Start := State(FeatureWrites.Start, Delivery.Start)

  lemma {:induction false} RunKeepsInv(s: State, steps: seq<Step>)
    requires Inv(s) && Valid(s, steps)
    ensures Inv(Run(s, steps))
    decreases |steps|
  {
    if steps != [] {
      StepKeepsInv(s, steps[0]);
      RunKeepsInv(Do(s, steps[0]), steps[1..]);
    }
  }

  lemma StartInv()
    ensures Inv(Start)
  {
    FeatureWrites.StartInv();
  }

  // ---- what is recorded ----

  /** Some handler call has written the deletion of `f` at version `n`. */
  ghost predicate DeletionWritten(s: State, f: string, n: int) {
    exists author :: Delivery.WrittenFor(s.delivery, FeatureDeleted(f, n, author))
  }

  /** Version `n` of the feature with history `h` is recorded: a later one if a revert made it, the first
      if its creation has been handled. */
  ghost predicate Recorded(s: State, f: string, n: int) {
    var h := HistoryOf(s, f);
    1 <= n <= |h|
    && if n == 1 then Delivery.WrittenFor(s.delivery, CreatedEvent(f, h[0].row)) else h[n - 1].origin.Restore?
  }

  /** What a written call's event says of its feature. */
  lemma WrittenIsTrue(s: State, p: Payload)
    requires Inv(s) && Delivery.WrittenFor(s.delivery, p)
    ensures var h := HistoryOf(s, p.featureId);
            && |h| >= 1 && (p.FeatureCreated? ==> h[0].origin.Initial? && p == CreatedEvent(p.featureId, h[0].row))
            && (p.FeatureDeleted? ==> Gone(s.writers, p.featureId) && p.lastVersion == |h|)
  {
    var c :| c in s.delivery.written && c in s.delivery.origin && s.delivery.origin[c] in s.delivery.relay.saved
      && EventFor(s.delivery, c) == p;
    EventIsTrue(s.writers, s.delivery.origin[c]);
  }

  /** In every run each row of the table is true of the feature's committed history: version 1 is its
      first state, a revert is the state that the revert left, and a deletion comes after the last
      version of a deleted feature and repeats that version's row. All of them hold the snapshot of the
      creation: a revert never finds anything else to restore. */
  lemma RecordedRowsAreTrue(steps: seq<Step>, k: (string, int))
    requires Valid(Start, steps) && k in Run(Start, steps).delivery.versions
    ensures var s := Run(Start, steps);
            var vs, h := s.delivery.versions, HistoryOf(s, k.0);
            && RowTrue(h, Gone(s.writers, k.0), vs, k)
            && |h| >= 1 && vs[k].snapshot == FeatureWrites.SnapshotOf(h[0].row)
  {
    StartInv();
    RunKeepsInv(Start, steps);
    TrueRow(Run(Start, steps), k);
  }

  lemma TrueRow(s: State, k: (string, int))
    requires Inv(s) && k in s.delivery.versions
    ensures var vs, h := s.delivery.versions, HistoryOf(s, k.0);
            && RowTrue(h, Gone(s.writers, k.0), vs, k)
            && |h| >= 1 && vs[k].snapshot == FeatureWrites.SnapshotOf(h[0].row)
  {
    assert Delivery.RowTraced(s.delivery, k);
    assert RowTrue(HistoryOf(s, k.0), Gone(s.writers, k.0), s.delivery.versions, (k.0, 1));
  }

  /** In every run exactly these versions of a feature are recorded: version 1 once its creation has
      been handled, every version that a revert made, and no version that an update made. */
  lemma RecordedExactly(steps: seq<Step>, f: string, n: int)
    requires Valid(Start, steps) && 1 <= n <= |HistoryOf(Run(Start, steps), f)|
    ensures var s := Run(Start, steps);
            (f, n) in s.delivery.versions <==> Recorded(s, f, n)
  {
    StartInv();
    RunKeepsInv(Start, steps);
    VersionRecorded(Run(Start, steps), f, n);
  }

  lemma VersionRecorded(s: State, f: string, n: int)
    requires Inv(s) && 1 <= n <= |HistoryOf(s, f)|
    ensures (f, n) in s.delivery.versions <==> Recorded(s, f, n)
  {
    var d := s.delivery;
    if (f, n) in d.versions {
      TrueRow(s, (f, n));
      assert Delivery.RowTraced(d, (f, n));
      if n == 1 {
        WrittenIsTrue(s, FeatureCreated(f, d.versions[(f, 1)].snapshot, d.versions[(f, 1)].authorId));
      }
    } else if n == 1 {
      CreationWrites(s, f);
    } else {
      assert RestoresRecorded(HistoryOf(s, f), d.versions, f);
    }
  }

  lemma CreationWrites(s: State, f: string)
    requires Inv(s) && |HistoryOf(s, f)| >= 1
    ensures Delivery.WrittenFor(s.delivery, CreatedEvent(f, HistoryOf(s, f)[0].row)) ==> (f, 1) in s.delivery.versions
  {
    var d, p := s.delivery, CreatedEvent(f, HistoryOf(s, f)[0].row);
    if Delivery.WrittenFor(d, p) {
      var c :| c in d.written && c in d.origin && d.origin[c] in d.relay.saved && EventFor(d, c) == p;
      assert Delivery.CallRecorded(d, c);
    }
  }

  lemma BeyondLast(s: State, f: string, n: int)
    requires RowsTrue(s) && (f, n) in s.delivery.versions && Delivery.RowTraced(s.delivery, (f, n))
    requires n > |HistoryOf(s, f)| >= 1
    ensures var last := |HistoryOf(s, f)|;
            n == last + 1 && Gone(s.writers, f) && (f, last) in s.delivery.versions && DeletionWritten(s, f, last)
  {
    assert RowTrue(HistoryOf(s, f), Gone(s.writers, f), s.delivery.versions, (f, n));
  }

  lemma DeletionWrites(s: State, f: string, n: int)
    requires DeletionsDone(s) && n >= 2 && (f, n) in s.delivery.versions && DeletionWritten(s, f, n)
    ensures (f, n + 1) in s.delivery.versions
  {
    var author :| Delivery.WrittenFor(s.delivery, FeatureDeleted(f, n, author));
    WritesDeletion(s, f, n, author);
  }

  lemma WritesDeletion(s: State, f: string, n: int, author: string)
    requires DeletionsDone(s) && n >= 2 && (f, n) in s.delivery.versions
    requires Delivery.WrittenFor(s.delivery, FeatureDeleted(f, n, author))
    ensures (f, n + 1) in s.delivery.versions
  {
    var d := s.delivery;
    var c :| c in d.written && c in d.origin && d.origin[c] in d.relay.saved
      && d.relay.saved[d.origin[c]].payload == FeatureDeleted(f, n, author);
    assert DeletionDone(d.versions, EventFor(d, c));
  }

  /** What is recorded above a feature's last version. */
  ghost predicate DeletionExact(s: State, f: string) {
    var last, vs := |HistoryOf(s, f)|, s.delivery.versions;
    && ((f, last + 1) in vs ==> Gone(s.writers, f) && Recorded(s, f, last) && DeletionWritten(s, f, last))
    && (last >= 2 && Recorded(s, f, last) && DeletionWritten(s, f, last) ==> (f, last + 1) in vs)
    && forall n | n > last + 1 :: (f, n) !in vs
  }

  /** A deletion is recorded only of a deleted feature, under the number after its last, and only if that
      last version is recorded: if a revert made it, then exactly once the deletion has been handled; if
      it is the first, then only after its creation. A deletion after an update is never recorded. */
  lemma DeletionRecordedExactly(steps: seq<Step>, f: string)
    requires Valid(Start, steps) && HistoryOf(Run(Start, steps), f) != []
    ensures DeletionExact(Run(Start, steps), f)
  {
    StartInv();
    RunKeepsInv(Start, steps);
    DeletionsExact(Run(Start, steps), f);
  }

  lemma DeletionsExact(s: State, f: string)
    requires Inv(s) && HistoryOf(s, f) != []
    ensures DeletionExact(s, f)
  {
    var last := |HistoryOf(s, f)|;
    VersionRecorded(s, f, last);
    forall n | n > last && (f, n) in s.delivery.versions
      ensures n == last + 1 && Gone(s.writers, f) && (f, last) in s.delivery.versions && DeletionWritten(s, f, last)
    {
      BeyondLast(s, f, n);
    }
    if (f, last) in s.delivery.versions && last >= 2 && DeletionWritten(s, f, last) {
      DeletionWrites(s, f, last);
    }
  }

  /** What writing a deletion does. */
  ghost predicate DeletionStepExact(s: State, e: Payload, after: Versions)
    requires e.FeatureDeleted?
  {
    && Gone(s.writers, e.featureId) && e.lastVersion == |HistoryOf(s, e.featureId)|
    && (e.featureId, e.lastVersion + 1) !in s.delivery.versions
    && ((e.featureId, e.lastVersion + 1) in after <==> Recorded(s, e.featureId, e.lastVersion))
  }

  /** At the moment a handler writes the deletion of version `n`: the number after it is free, and the
      deletion is recorded exactly if version `n`, the feature's last, is recorded by then. */
  lemma DeletionStepExactly(steps: seq<Step>, c: nat)
    requires Valid(Start, steps) && Enabled(Run(Start, steps), Deliver(Delivery.Write(c)))
    requires EventFor(Run(Start, steps).delivery, c).FeatureDeleted?
    ensures var s := Run(Start, steps);
            DeletionStepExact(s, EventFor(s.delivery, c), Do(s, Deliver(Delivery.Write(c))).delivery.versions)
  {
    StartInv();
    RunKeepsInv(Start, steps);
    DeletionStep(Run(Start, steps), c);
  }

  lemma DeletionStep(s: State, c: nat)
    requires Inv(s) && Enabled(s, Deliver(Delivery.Write(c))) && EventFor(s.delivery, c).FeatureDeleted?
    ensures DeletionStepExact(s, EventFor(s.delivery, c), Do(s, Deliver(Delivery.Write(c))).delivery.versions)
  {
    var e := EventFor(s.delivery, c);
    DeletionIsTrue(s, s.delivery.origin[c]);
    VersionRecorded(s, e.featureId, e.lastVersion);
    WritingDeletes(s, c);
  }

  lemma DeletionIsTrue(s: State, id: nat)
    requires Inv(s) && id in s.delivery.relay.saved && s.delivery.relay.saved[id].payload.FeatureDeleted?
    ensures var e := s.delivery.relay.saved[id].payload;
            Gone(s.writers, e.featureId) && 1 <= e.lastVersion == |HistoryOf(s, e.featureId)|
  {
    EventIsTrue(s.writers, id);
  }

  lemma WritingDeletes(s: State, c: nat)
    requires RowsTrue(s) && Enabled(s, Deliver(Delivery.Write(c))) && EventFor(s.delivery, c).FeatureDeleted?
    requires EventFor(s.delivery, c).lastVersion == |HistoryOf(s, EventFor(s.delivery, c).featureId)| >= 1
    ensures var e, t := EventFor(s.delivery, c), Do(s, Deliver(Delivery.Write(c)));
            && (e.featureId, e.lastVersion + 1) !in s.delivery.versions
            && ((e.featureId, e.lastVersion + 1) in t.delivery.versions <==>
                (e.featureId, e.lastVersion) in s.delivery.versions)
  {
  }

  /** The number that a revert of the feature would take is free. */
  ghost predicate NextNumberFree(s: State, f: string) {
    var h := HistoryOf(s, f);
    (f, |h| + 1) !in s.delivery.versions && (f in s.writers.rows ==> s.writers.rows[f].version == |h|)
  }

  /** In every run the number that an undisturbed revert of a live feature takes is free, so the unique
      key never refuses it. */
  lemma UndisturbedRevertSucceeds(steps: seq<Step>, f: string)
    requires Valid(Start, steps) && !Gone(Run(Start, steps).writers, f)
    ensures NextNumberFree(Run(Start, steps), f)
  {
    StartInv();
    RunKeepsInv(Start, steps);
    LiveNumberIsFree(Run(Start, steps), f);
  }

  lemma LiveNumberIsFree(s: State, f: string)
    requires Inv(s) && !Gone(s.writers, f)
    ensures NextNumberFree(s, f)
  {
    assert FeatureWrites.RowOk(s.writers, f);
    if (f, |HistoryOf(s, f)| + 1) in s.delivery.versions {
      TrueRow(s, (f, |HistoryOf(s, f)| + 1));
      assert false;
    }
  }

  /** Nothing is ever recorded of an imported feature, which no event announced; so it is never reverted
      either, and its deletion leaves no row. */
  lemma ImportedIsNeverRecorded(steps: seq<Step>, f: string, n: int)
    requires Valid(Start, steps)
    requires HistoryOf(Run(Start, steps), f) != [] && HistoryOf(Run(Start, steps), f)[0].origin.Imported?
    ensures (f, n) !in Run(Start, steps).delivery.versions
  {
    StartInv();
    RunKeepsInv(Start, steps);
    if (f, n) in Run(Start, steps).delivery.versions {
      RecordedWasAnnounced(Run(Start, steps), (f, n));
      assert false;
    }
  }

  lemma RecordedWasAnnounced(s: State, k: (string, int))
    requires Inv(s) && k in s.delivery.versions
    ensures HistoryOf(s, k.0) != [] && HistoryOf(s, k.0)[0].origin.Initial?
  {
    var vs, d := s.delivery.versions, s.delivery;
    assert Delivery.RowTraced(d, k) && Delivery.RowTraced(d, (k.0, 1));
    WrittenIsTrue(s, FeatureCreated(k.0, vs[(k.0, 1)].snapshot, vs[(k.0, 1)].authorId));
  }

  /** Create, update, revert to 1, delete: the revert is recorded as version 3 and the deletion as version
      4, although an update came in between. Without the revert the deletion leaves no row. */
  lemma DeletionAfterRevertIsRecorded(rows: map<string, FeatureRow>, f: string, snapshot: Snapshot, userId: string)
    ensures var vs1: Versions := map[(f, 1) := VersionRow(Created, snapshot, userId)];
            var vs3 := vs1[(f, 3) := VersionRow(Reverted, snapshot, userId)];
            var vs4 := vs3[(f, 4) := VersionRow(Deleted, snapshot, userId)];
            var reverted := RevertTx(rows, vs1, f, 1, snapshot, 3, userId);
            && Record(map[], FeatureCreated(f, snapshot, userId)) == Some(vs1)
            && Record(vs1, FeatureDeleted(f, 2, userId)) == Some(vs1)
            && reverted.Some? && reverted.value.1 == vs3
            && Record(vs3, FeatureDeleted(f, 3, userId)) == Some(vs4)
  {
  }
}
