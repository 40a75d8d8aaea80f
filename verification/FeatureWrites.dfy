/** Any number of clients reading, saving, creating, importing, deleting and reverting features at once. An
    imported feature is inserted without an event, beside the feature repository. A revert is
    one step here: nothing else writes its feature between its first read and its commit. What reverts
    do that are disturbed is the subject of module Reverts. */
module FeatureWrites {
  import opened Common
  import opened Outbox
  import opened Features

  /** How a version came about: by the creation, by an import, by a client's patch, or by a revert to a
      snapshot. */
  datatype Origin = Initial | Imported | Edit(patch: Patch) | Restore(snapshot: Snapshot, userId: string)

  /** One committed version of a feature. */
  datatype Version = Version(row: FeatureRow, origin: Origin)

  /** A writing client holds the row lock; its row and event become visible when it commits. The
      ticket is the outbox id that its INSERT draws from the sequence. */
  datatype Write =
    | Creating(first: FeatureRow)
    | Updating(next: FeatureRow, patch: Patch)
    | Deleting(gone: FeatureRow, event: Payload)

  datatype Client =
    | Idle
    | Ready(f: string, base: FeatureRow, patch: Patch)
    | Writing(f: string, write: Write, ticket: Option<nat>)

  /** `history` is every committed version of every feature. */
  datatype State = State(rows: map<string, FeatureRow>, outbox: map<nat, Payload>, nextId: nat,
                         clients: map<nat, Client>, history: map<string, seq<Version>>)

  datatype Step =
    | Read(c: nat, f: string, patch: Patch)
    | BeginSave(c: nat)
    | BeginCreate(c: nat, f: string, first: FeatureRow)
    | BeginDelete(c: nat, f: string, expected: int, deletedBy: string)
    | Draw(c: nat)
    | Commit(c: nat)
    | Import(c: nat, f: string, first: FeatureRow)
    | Revert(c: nat, f: string, snapshot: Snapshot, userId: string)
    | GiveUp(c: nat)   // conflict, error or crash: whatever was staged is rolled back

  function ClientOf(s: State, c: nat): Client {
    if c in s.clients then s.clients[c] else Idle
  }

  predicate Unlocked(s: State, f: string) {
    forall c | c in s.clients :: s.clients[c].Writing? ==> s.clients[c].f != f
  }

  predicate Alive(s: State, f: string) {
    f in s.rows && !s.rows[f].isDeleted
  }

  predicate Enabled(s: State, step: Step) {
    var k := ClientOf(s, step.c);
    match step
    case Read(_, f, p) =>
      k == Idle && Alive(s, f) && s.rows[f].version == p.expectedVersion && Patched(s.rows[f], p).Some?
    case BeginSave(_) =>
      && k.Ready? && Patched(k.base, k.patch).Some? && Unlocked(s, k.f)
      && Alive(s, k.f) && s.rows[k.f].version == k.base.version
    case BeginCreate(_, f, first) =>
      k == Idle && f !in s.rows && Unlocked(s, f) && first.version == 1 && !first.isDeleted
    case BeginDelete(_, f, expected, _) => k == Idle && Unlocked(s, f) && Alive(s, f) && s.rows[f].version == expected
    case Draw(_) => k.Writing? && k.ticket.None?
    case Commit(_) => k.Writing? && k.ticket.Some?
    case Import(_, f, first) =>
      k == Idle && f !in s.rows && Unlocked(s, f) && first.version == 1 && !first.isDeleted
    case Revert(_, f, _, _) => k == Idle && Unlocked(s, f) && Alive(s, f)
    case GiveUp(_) => k != Idle
  }

  function SnapshotOf(r: FeatureRow): Snapshot {
    Snapshot(r.geometry, r.properties, r.name)
  }

  /** The row after a revert to `snapshot`. */
  function Restored(r: FeatureRow, snapshot: Snapshot, userId: string): FeatureRow {
    r.(geometry := snapshot.geometry, name := snapshot.name, properties := snapshot.properties,
       version := r.version + 1, updatedBy := userId)
  }

  /** The save writes every mutable column from the client's own copy, whatever the row holds now. */
  function SaveOver(current: FeatureRow, base: FeatureRow, p: Patch): FeatureRow
    requires Patched(base, p).Some?
  {
    Patched(base, p).value.(geometryType := current.geometryType, createdBy := current.createdBy,
                            isDeleted := current.isDeleted)
  }

  function Announced(f: string, w: Write): Payload {
    match w
    case Creating(first) => CreatedEvent(f, first)
    case Updating(next, _) => UpdatedEvent(f, next)
    case Deleting(_, e) => e
  }

  function After(w: Write): FeatureRow {
    match w
    case Creating(first) => first
    case Updating(next, _) => next
    case Deleting(gone, _) => gone
  }

  function Extended(h: seq<Version>, w: Write): seq<Version> {
    match w
    case Creating(first) => [Version(first, Initial)]
    case Updating(next, p) => h + [Version(next, Edit(p))]
    case Deleting(_, _) => h
  }

  function HistoryOf(s: State, f: string): seq<Version> {
    if f in s.history then s.history[f] else []
  }

  function Do(s: State, step: Step): State
    requires Enabled(s, step)
  {
    var c, k := step.c, ClientOf(s, step.c);
    match step
    case Read(_, f, p) => s.(clients := s.clients[c := Ready(f, s.rows[f], p)])
    case BeginSave(_) =>
      s.(clients := s.clients[c := Writing(k.f, Updating(SaveOver(s.rows[k.f], k.base, k.patch), k.patch), None)])
    case BeginCreate(_, f, first) => s.(clients := s.clients[c := Writing(f, Creating(first), None)])
    case BeginDelete(_, f, _, deletedBy) =>
      s.(clients := s.clients[c := Writing(f, Deleting(s.rows[f].(isDeleted := true, updatedBy := deletedBy),
                                                       DeletedEvent(f, s.rows[f], deletedBy)), None)])
    case Draw(_) => s.(clients := s.clients[c := k.(ticket := Some(s.nextId))], nextId := s.nextId + 1)
    case Commit(_) =>
      s.(rows := s.rows[k.f := After(k.write)],
         outbox := s.outbox[k.ticket.value := Announced(k.f, k.write)],
         history := s.history[k.f := Extended(HistoryOf(s, k.f), k.write)],
         clients := s.clients[c := Idle])
    case Import(_, f, first) => s.(rows := s.rows[f := first], history := s.history[f := [Version(first, Imported)]])
    case Revert(_, f, snapshot, userId) =>
      var next := Restored(s.rows[f], snapshot, userId);
      s.(rows := s.rows[f := next],
         history := s.history[f := HistoryOf(s, f) + [Version(next, Restore(snapshot, userId))]])
    case GiveUp(_) => s.(clients := s.clients[c := Idle])
  }

  // ---- the outbox read back ----

  /** The events of one feature, in outbox id order, among ids below `n`. */
  function EventsOf(outbox: map<nat, Payload>, f: string, n: nat): seq<Payload> {
    if n == 0 then []
    else EventsOf(outbox, f, n - 1) + if n - 1 in outbox && outbox[n - 1].featureId == f then [outbox[n - 1]] else []
  }

  lemma {:induction false} EventsAppend(outbox: map<nat, Payload>, f: string, k: nat, e: Payload, n: nat)
    requires k !in outbox && k < n
    requires e.featureId == f ==> forall i | i in outbox && outbox[i].featureId == f :: i < k
    ensures EventsOf(outbox[k := e], f, n) == EventsOf(outbox, f, n) + if e.featureId == f then [e] else []
  {
    if n - 1 == k {
      EventsBelow(outbox, f, k, e, k);
    } else {
      EventsAppend(outbox, f, k, e, n - 1);
    }
  }

  lemma {:induction false} EventsBelow(outbox: map<nat, Payload>, f: string, k: nat, e: Payload, n: nat)
    requires n <= k
    ensures EventsOf(outbox[k := e], f, n) == EventsOf(outbox, f, n)
  {
    if n > 0 {
      EventsBelow(outbox, f, k, e, n - 1);
    }
  }

  /** What the history of a feature says its events must be: one for the creation and for every edit, in
      version order, and none for an import or a revert. */
  function Story(f: string, h: seq<Version>): seq<Payload> {
    if h == [] then []
    else
      var v := h[|h| - 1];
      Story(f, h[..|h| - 1])
      + match v.origin
        case Initial => [CreatedEvent(f, v.row)]
        case Imported => []
        case Edit(_) => [UpdatedEvent(f, v.row)]
        case Restore(_, _) => []
  }

  ghost predicate EventsTell(s: State, f: string) {
    var events := EventsOf(s.outbox, f, s.nextId);
    if f !in s.rows then events == []
    else if !s.rows[f].isDeleted then events == Story(f, HistoryOf(s, f))
    else events == Story(f, HistoryOf(s, f)) + [DeletedEvent(f, s.rows[f], s.rows[f].updatedBy)]
  }

  // ---- invariants ----

  /** What a version adds to the one before it. */
  predicate Follows(before: FeatureRow, v: Version) {
    match v.origin
    case Initial => false
    case Imported => false
    case Edit(p) => Patched(before, p) == Some(v.row)
    case Restore(snapshot, userId) => v.row == Restored(before, snapshot, userId)
  }

  /** Versions count from 1 and each is the one before it with one client's patch applied or one
      snapshot restored. */
  ghost predicate Linear(h: seq<Version>) {
    && |h| >= 1 && (h[0].origin.Initial? || h[0].origin.Imported?)
    && (forall i | 0 <= i < |h| :: h[i].row.version == i + 1 && !h[i].row.isDeleted)
    && (forall i | 1 <= i < |h| :: Follows(h[i - 1].row, h[i]))
  }

  ghost predicate RowOk(s: State, f: string) {
    && (f in s.rows <==> f in s.history)
    && (f in s.rows ==>
          && Linear(s.history[f])
          && var last := s.history[f][|s.history[f]| - 1].row;
             s.rows[f] == if s.rows[f].isDeleted
                          then last.(isDeleted := true, updatedBy := s.rows[f].updatedBy) else last)
  }

  /** A client's copy is the committed version that carries its number. */
  ghost predicate ReadyOk(s: State, k: Client)
    requires k.Ready?
  {
    && k.f in s.history && 1 <= k.base.version <= |s.history[k.f]|
    && k.base == s.history[k.f][k.base.version - 1].row
    && Patched(k.base, k.patch).Some?
  }

  /** A staged write follows the row as it still is. */
  ghost predicate WriteOk(s: State, f: string, w: Write) {
    match w
    case Creating(first) => f !in s.rows && first.version == 1 && !first.isDeleted
    case Updating(next, p) => Alive(s, f) && Patched(s.rows[f], p) == Some(next)
    case Deleting(gone, e) =>
      && Alive(s, f) && gone == s.rows[f].(isDeleted := true, updatedBy := gone.updatedBy)
      && e == DeletedEvent(f, gone, gone.updatedBy)
  }

  ghost predicate TicketOk(s: State, f: string, ticket: Option<nat>) {
    ticket.Some? ==>
      && ticket.value < s.nextId && ticket.value !in s.outbox
      && forall i | i in s.outbox && s.outbox[i].featureId == f :: i < ticket.value
  }

  ghost predicate ClientOk(s: State, c: nat)
    requires c in s.clients
  {
    match s.clients[c]
    case Idle => true
    case Ready(_, _, _) => ReadyOk(s, s.clients[c])
    case Writing(f, w, ticket) => WriteOk(s, f, w) && TicketOk(s, f, ticket)
  }

  ghost predicate OwnLocks(s: State) {
    forall c, d | c in s.clients && d in s.clients && c != d && s.clients[c].Writing? && s.clients[d].Writing? ::
      && s.clients[c].f != s.clients[d].f
      && (s.clients[c].ticket.Some? ==> s.clients[c].ticket != s.clients[d].ticket)
  }

  ghost predicate Inv(s: State) {
    && (forall f :: RowOk(s, f))
    && (forall c | c in s.clients :: ClientOk(s, c))
    && OwnLocks(s)
    && (forall i | i in s.outbox :: i < s.nextId)
    && (forall f :: EventsTell(s, f))
  }

  // ---- steps that only move one client ----

  lemma ClientStepKeepsInv(s: State, c: nat, k: Client)
    requires Inv(s) && ClientOk(s.(clients := s.clients[c := k]), c)
    requires k.Writing? ==> k.ticket.None? && Unlocked(s, k.f)
    ensures Inv(s.(clients := s.clients[c := k]))
  {
    var s' := s.(clients := s.clients[c := k]);
    forall f ensures RowOk(s', f) && EventsTell(s', f) {
      assert RowOk(s, f) && EventsTell(s, f);
    }
    forall d | d in s'.clients ensures ClientOk(s', d) {
      if d != c {
        assert ClientOk(s, d);
      }
    }
  }

  /** A matching version number means a matching row: the client's copy is the current one. */
  lemma SameVersionSameRow(s: State, k: Client)
    requires Inv(s) && k.Ready? && ReadyOk(s, k) && Alive(s, k.f) && s.rows[k.f].version == k.base.version
    ensures k.base == s.rows[k.f]
  {
    assert RowOk(s, k.f);
  }

  lemma DrawKeepsInv(s: State, c: nat)
    requires Inv(s) && Enabled(s, Draw(c))
    ensures Inv(Do(s, Draw(c)))
  {
    var s' := Do(s, Draw(c));
    assert ClientOk(s, c);
    forall f ensures RowOk(s', f) && EventsTell(s', f) {
      assert RowOk(s, f) && EventsTell(s, f);
    }
    forall d | d in s'.clients ensures ClientOk(s', d) {
      assert ClientOk(s, d);
    }
  }

  // ---- commit ----

  lemma InitialIsFirst(h: seq<Version>)
    requires h == [] || Linear(h)
    ensures forall i | 0 <= i < |h| :: (h[i].origin.Initial? || h[i].origin.Imported?) <==> i == 0
  {
    forall i | 1 <= i < |h| ensures !h[i].origin.Initial? && !h[i].origin.Imported? {
      assert Follows(h[i - 1].row, h[i]);
    }
  }

  lemma LinearGrows(h: seq<Version>, v: Version)
    requires Linear(h) && Follows(h[|h| - 1].row, v)
    ensures Linear(h + [v])
  {
  }

  lemma CommitRows(s: State, c: nat, f: string)
    requires Inv(s) && Enabled(s, Commit(c))
    ensures RowOk(Do(s, Commit(c)), f)
  {
    assert RowOk(s, f) && ClientOk(s, c);
    var k := s.clients[c];
    if f == k.f && k.write.Updating? {
      LinearGrows(s.history[f], Version(k.write.next, Edit(k.write.patch)));
    }
  }

  lemma CommitEvents(s: State, c: nat, f: string)
    requires Inv(s) && Enabled(s, Commit(c))
    ensures EventsTell(Do(s, Commit(c)), f)
  {
    var k := s.clients[c];
    assert RowOk(s, f) && EventsTell(s, f) && ClientOk(s, c);
    EventsAppend(s.outbox, f, k.ticket.value, Announced(k.f, k.write), s.nextId);
    if f == k.f && k.write.Updating? {
      var h := s.history[f];
      assert (h + [Version(k.write.next, Edit(k.write.patch))])[..|h|] == h;
    }
  }

  lemma CommitClients(s: State, c: nat, d: nat)
    requires Inv(s) && Enabled(s, Commit(c)) && d in s.clients && d != c
    ensures ClientOk(Do(s, Commit(c)), d)
  {
    assert ClientOk(s, d) && ClientOk(s, c);
    var k := s.clients[c];
    if s.clients[d].Ready? && s.clients[d].f == k.f {
      assert RowOk(s, k.f);
    }
  }

  lemma CommitKeepsInv(s: State, c: nat)
    requires Inv(s) && Enabled(s, Commit(c))
    ensures Inv(Do(s, Commit(c)))
  {
    var s' := Do(s, Commit(c));
    assert ClientOk(s, c);
    forall f ensures RowOk(s', f) && EventsTell(s', f) {
      CommitRows(s, c, f);
      CommitEvents(s, c, f);
    }
    forall d | d in s'.clients ensures ClientOk(s', d) {
      if d != c {
        CommitClients(s, c, d);
      }
    }
  }

  lemma ImportTells(s: State, c: nat, f: string, first: FeatureRow, g: string)
    requires Inv(s) && Enabled(s, Import(c, f, first))
    ensures RowOk(Do(s, Import(c, f, first)), g) && EventsTell(Do(s, Import(c, f, first)), g)
  {
    assert RowOk(s, g) && EventsTell(s, g);
    assert Story(f, [Version(first, Imported)]) == Story(f, []);
  }

  lemma ImportClients(s: State, c: nat, f: string, first: FeatureRow, d: nat)
    requires Inv(s) && Enabled(s, Import(c, f, first)) && d in s.clients
    ensures ClientOk(Do(s, Import(c, f, first)), d)
  {
    assert ClientOk(s, d) && RowOk(s, f);
  }

  lemma ImportKeepsInv(s: State, c: nat, f: string, first: FeatureRow)
    requires Inv(s) && Enabled(s, Import(c, f, first))
    ensures Inv(Do(s, Import(c, f, first)))
  {
    var s' := Do(s, Import(c, f, first));
    forall g ensures RowOk(s', g) && EventsTell(s', g) {
      ImportTells(s, c, f, first, g);
    }
    forall d | d in s'.clients ensures ClientOk(s', d) {
      ImportClients(s, c, f, first, d);
    }
  }

  lemma RevertTells(s: State, c: nat, f: string, snapshot: Snapshot, userId: string, g: string)
    requires Inv(s) && Enabled(s, Revert(c, f, snapshot, userId))
    ensures RowOk(Do(s, Revert(c, f, snapshot, userId)), g) && EventsTell(Do(s, Revert(c, f, snapshot, userId)), g)
  {
    assert RowOk(s, g) && EventsTell(s, g);
    if f == g {
      var h, v := s.history[f], Version(Restored(s.rows[f], snapshot, userId), Restore(snapshot, userId));
      LinearGrows(h, v);
      assert (h + [v])[..|h|] == h;
    }
  }

  lemma RevertClients(s: State, c: nat, f: string, snapshot: Snapshot, userId: string, d: nat)
    requires Inv(s) && Enabled(s, Revert(c, f, snapshot, userId)) && d in s.clients
    ensures ClientOk(Do(s, Revert(c, f, snapshot, userId)), d)
  {
    assert ClientOk(s, d) && RowOk(s, f);
  }

  lemma RevertKeepsInv(s: State, c: nat, f: string, snapshot: Snapshot, userId: string)
    requires Inv(s) && Enabled(s, Revert(c, f, snapshot, userId))
    ensures Inv(Do(s, Revert(c, f, snapshot, userId)))
  {
    var s' := Do(s, Revert(c, f, snapshot, userId));
    forall g ensures RowOk(s', g) && EventsTell(s', g) {
      RevertTells(s, c, f, snapshot, userId, g);
    }
    forall d | d in s'.clients ensures ClientOk(s', d) {
      RevertClients(s, c, f, snapshot, userId, d);
    }
  }

  lemma BeginSaveKeepsInv(s: State, c: nat)
    requires Inv(s) && Enabled(s, BeginSave(c))
    ensures Inv(Do(s, BeginSave(c)))
  {
    assert ClientOk(s, c);
    var k := s.clients[c];
    SameVersionSameRow(s, k);
    ClientStepKeepsInv(s, c, Do(s, BeginSave(c)).clients[c]);
  }

  lemma ReadKeepsInv(s: State, c: nat, f: string, p: Patch)
    requires Inv(s) && Enabled(s, Read(c, f, p))
    ensures Inv(Do(s, Read(c, f, p)))
  {
    assert RowOk(s, f);
    ClientStepKeepsInv(s, c, Ready(f, s.rows[f], p));
  }

  lemma StepKeepsInv(s: State, step: Step)
    requires Inv(s) && Enabled(s, step)
    ensures Inv(Do(s, step))
  {
    match step
    case Read(c, f, p) => ReadKeepsInv(s, c, f, p);
    case BeginSave(c) => BeginSaveKeepsInv(s, c);
    case BeginCreate(c, f, first) => ClientStepKeepsInv(s, c, Do(s, step).clients[c]);
    case BeginDelete(c, f, _, _) => ClientStepKeepsInv(s, c, Do(s, step).clients[c]);
    case Draw(c) => DrawKeepsInv(s, c);
    case Commit(c) => CommitKeepsInv(s, c);
    case Import(c, f, first) => ImportKeepsInv(s, c, f, first);
    case Revert(c, f, snapshot, userId) => RevertKeepsInv(s, c, f, snapshot, userId);
    case GiveUp(c) => ClientStepKeepsInv(s, c, Idle);
  }

  // ---- runs ----

  predicate Valid(s: State, steps: seq<Step>)
    decreases |steps|
  {
    steps == [] || (Enabled(s, steps[0]) && Valid(Do(s, steps[0]), steps[1..]))
  }

  function Run(s: State, steps: seq<Step>): State
    requires Valid(s, steps)
    decreases |steps|
  {
    if steps == [] then s else Run(Do(s, steps[0]), steps[1..])
  }

  const Start := State(map[], map[], 1, map[], map[])

  ghost predicate Keeps(s: State, t: State, f: string) {
    && HistoryOf(s, f) <= HistoryOf(t, f)
    && (f in s.rows && s.rows[f].isDeleted ==>
          f in t.rows && t.rows[f] == s.rows[f] && HistoryOf(t, f) == HistoryOf(s, f))
  }

  lemma StepKeepsHistory(s: State, step: Step, f: string)
    requires Inv(s) && Enabled(s, step)
    ensures Keeps(s, Do(s, step), f)
  {
    if step.Commit? {
      assert ClientOk(s, step.c) && RowOk(s, f);
    }
  }

  /** The invariant lasts; committed versions stay; a deleted feature never changes again. */
  lemma {:induction false} RunKeepsInv(s: State, steps: seq<Step>, f: string)
    requires Inv(s) && Valid(s, steps)
    ensures Inv(Run(s, steps))
    ensures HistoryOf(s, f) <= HistoryOf(Run(s, steps), f)
    ensures f in s.rows && s.rows[f].isDeleted ==>
              && f in Run(s, steps).rows && Run(s, steps).rows[f] == s.rows[f]
              && HistoryOf(Run(s, steps), f) == HistoryOf(s, f)
    decreases |steps|
  {
    if steps != [] {
      StepKeepsInv(s, steps[0]);
      StepKeepsHistory(s, steps[0], f);
      RunKeepsInv(Do(s, steps[0]), steps[1..], f);
    }
  }

  lemma StartInv()
    ensures Inv(Start)
  {
    forall f ensures EventsTell(Start, f) {
      assert EventsOf(Start.outbox, f, 0) == [];
    }
  }

  /** The version is the row before it with the patch applied, every field that the patch leaves out
      unchanged, or with the snapshot in place of geometry, name and properties. */
  predicate MadeFrom(before: FeatureRow, v: Version) {
    match v.origin
    case Edit(p) =>
      && (p.geometry.Some? ==> p.geometry.value.kind == before.geometryType)
      && v.row == before.(version := before.version + 1, updatedBy := p.userId,
                          name := if p.name.Some? then p.name.value else before.name,
                          description := if p.description.Some? then p.description else before.description,
                          tags := if p.tags.Some? then p.tags.value else before.tags,
                          properties := if p.properties.Some? then p.properties.value else before.properties,
                          geometry := if p.geometry.Some? then p.geometry.value else before.geometry)
    case Restore(snapshot, userId) =>
      v.row == before.(version := before.version + 1, updatedBy := userId, name := snapshot.name,
                       properties := snapshot.properties, geometry := snapshot.geometry)
    case _ => false
  }

  // ---- undisturbed writes ----

  lemma RunStep(s: State, step: Step, rest: seq<Step>)
    requires Enabled(s, step)
    ensures Valid(s, [step] + rest) <==> Valid(Do(s, step), rest)
    ensures Valid(Do(s, step), rest) ==> Run(s, [step] + rest) == Run(Do(s, step), rest)
  {
    assert ([step] + rest)[1..] == rest;
  }

  /** The steps of one save. */
  function Save(c: nat, f: string, p: Patch): seq<Step> {
    [Read(c, f, p)] + ([BeginSave(c)] + ([Draw(c)] + ([Commit(c)] + [])))
  }

  /** The state after client `c` has written `row` and announced it, with the history `h`. */
  ghost predicate WroteOnly(s: State, t: State, c: nat, f: string, row: FeatureRow, e: Payload, h: seq<Version>) {
    && t.rows == s.rows[f := row] && t.outbox == s.outbox[s.nextId := e] && t.nextId == s.nextId + 1
    && HistoryOf(t, f) == h && (forall g | g != f :: HistoryOf(t, g) == HistoryOf(s, g))
    && ClientOf(t, c) == Idle && (forall d | d != c :: ClientOf(t, d) == ClientOf(s, d))
  }

  lemma DrawAndCommit(s: State, c: nat, f: string, w: Write)
    requires ClientOf(s, c) == Writing(f, w, None)
    ensures var rest := [Draw(c)] + ([Commit(c)] + []);
            && Valid(s, rest)
            && WroteOnly(s, Run(s, rest), c, f, After(w), Announced(f, w), Extended(HistoryOf(s, f), w))
  {
    var s1 := Do(s, Draw(c));
    RunStep(s, Draw(c), [Commit(c)] + []);
    RunStep(s1, Commit(c), []);
  }

  /** A client that is not disturbed gets its save through exactly if the feature is live, at the version
      the client expects, and of the type of the new geometry; the row and one event are then written. */
  lemma UndisturbedSave(s: State, c: nat, f: string, p: Patch)
    requires ClientOf(s, c) == Idle && Unlocked(s, f)
    ensures Valid(s, Save(c, f, p)) <==>
            && f in s.rows && !s.rows[f].isDeleted && s.rows[f].version == p.expectedVersion
            && (p.geometry.Some? ==> p.geometry.value.kind == s.rows[f].geometryType)
    ensures Valid(s, Save(c, f, p)) ==>
              var v := Version(Patched(s.rows[f], p).value, Edit(p));
              && MadeFrom(s.rows[f], v)
              && WroteOnly(s, Run(s, Save(c, f, p)), c, f, v.row,
                           FeatureUpdated(f, s.rows[f].version + 1, v.row.geometry, v.row.properties, p.userId),
                           HistoryOf(s, f) + [v])
  {
    if Enabled(s, Read(c, f, p)) {
      var s1 := Do(s, Read(c, f, p));
      var s2 := Do(s1, BeginSave(c));
      RunStep(s, Read(c, f, p), [BeginSave(c)] + ([Draw(c)] + ([Commit(c)] + [])));
      RunStep(s1, BeginSave(c), [Draw(c)] + ([Commit(c)] + []));
      DrawAndCommit(s2, c, f, s2.clients[c].write);
    }
  }

  /** So does a creation exactly for a new feature that starts at version 1. */
  lemma UndisturbedCreate(s: State, c: nat, f: string, first: FeatureRow)
    requires ClientOf(s, c) == Idle && Unlocked(s, f)
    ensures var steps := [BeginCreate(c, f, first)] + ([Draw(c)] + ([Commit(c)] + []));
            && (Valid(s, steps) <==> f !in s.rows && first.version == 1 && !first.isDeleted)
            && (Valid(s, steps) ==>
                  WroteOnly(s, Run(s, steps), c, f, first,
                            FeatureCreated(f, Snapshot(first.geometry, first.properties, first.name), first.createdBy),
                            [Version(first, Initial)]))
  {
    if Enabled(s, BeginCreate(c, f, first)) {
      RunStep(s, BeginCreate(c, f, first), [Draw(c)] + ([Commit(c)] + []));
      DrawAndCommit(Do(s, BeginCreate(c, f, first)), c, f, Creating(first));
    }
  }

  /** And a deletion exactly for a live feature at the expected version; the history does not grow. */
  lemma UndisturbedDelete(s: State, c: nat, f: string, expected: int, userId: string)
    requires ClientOf(s, c) == Idle && Unlocked(s, f)
    ensures var steps := [BeginDelete(c, f, expected, userId)] + ([Draw(c)] + ([Commit(c)] + []));
            && (Valid(s, steps) <==> f in s.rows && !s.rows[f].isDeleted && s.rows[f].version == expected)
            && (Valid(s, steps) ==>
                  WroteOnly(s, Run(s, steps), c, f, s.rows[f].(isDeleted := true, updatedBy := userId),
                            FeatureDeleted(f, expected, userId), HistoryOf(s, f)))
  {
    if Enabled(s, BeginDelete(c, f, expected, userId)) {
      var s1 := Do(s, BeginDelete(c, f, expected, userId));
      RunStep(s, BeginDelete(c, f, expected, userId), [Draw(c)] + ([Commit(c)] + []));
      DrawAndCommit(s1, c, f, s1.clients[c].write);
    }
  }

  /** Imports and reverts, which are one step each; and giving up, which any client at work can do and
      which leaves nothing but a gap in the ids. */
  lemma SilentSteps(s: State, c: nat, f: string, first: FeatureRow, snapshot: Snapshot, userId: string)
    ensures ClientOf(s, c) == Idle && Unlocked(s, f) && f !in s.rows && first.version == 1 && !first.isDeleted ==>
              Enabled(s, Import(c, f, first))
              && Do(s, Import(c, f, first)) == s.(rows := s.rows[f := first],
                                                  history := s.history[f := [Version(first, Imported)]])
    ensures ClientOf(s, c) == Idle && Unlocked(s, f) && f in s.rows && !s.rows[f].isDeleted ==>
              var v := Version(Restored(s.rows[f], snapshot, userId), Restore(snapshot, userId));
              && Enabled(s, Revert(c, f, snapshot, userId)) && MadeFrom(s.rows[f], v)
              && Do(s, Revert(c, f, snapshot, userId))
                 == s.(rows := s.rows[f := v.row], history := s.history[f := HistoryOf(s, f) + [v]])
    ensures ClientOf(s, c) != Idle ==>
              Enabled(s, GiveUp(c)) && Do(s, GiveUp(c)) == s.(clients := s.clients[c := Idle])
  {
  }

  /** The compare-and-set: a client that holds a copy can write exactly while nobody else is writing the
      feature, and it is live and still at the number of the copy. */
  lemma SaveBeginsExactly(s: State, c: nat)
    requires Inv(s) && ClientOf(s, c).Ready?
    ensures var k := s.clients[c];
            Enabled(s, BeginSave(c)) <==>
            && (forall d | d in s.clients :: s.clients[d].Writing? ==> s.clients[d].f != k.f)
            && k.f in s.rows && !s.rows[k.f].isDeleted && s.rows[k.f].version == k.base.version
  {
    assert ClientOk(s, c);
  }

  /** No lost update. In every run the versions of a feature are numbered 1, 2, ... without a gap,
      and each is exactly the previous committed version with its own client's patch applied, or with
      the snapshot of an undisturbed revert; the stored row is the last of them, until it is deleted. */
  lemma NoLostUpdate(steps: seq<Step>, f: string)
    requires Valid(Start, steps) && f in Run(Start, steps).rows
    ensures var s := Run(Start, steps);
            var h := HistoryOf(s, f);
            && |h| == s.rows[f].version >= 1 && (h[0].origin.Initial? || h[0].origin.Imported?)
            && (forall i | 0 <= i < |h| :: h[i].row.version == i + 1)
            && (forall i | 1 <= i < |h| :: MadeFrom(h[i - 1].row, h[i]))
            && s.rows[f] == h[|h| - 1].row.(isDeleted := s.rows[f].isDeleted,
                                             updatedBy := if s.rows[f].isDeleted then s.rows[f].updatedBy
                                                          else h[|h| - 1].row.updatedBy)
  {
    StartInv();
    RunKeepsInv(Start, steps, f);
    assert RowOk(Run(Start, steps), f);
    var h := HistoryOf(Run(Start, steps), f);
    forall i | 1 <= i < |h| ensures MadeFrom(h[i - 1].row, h[i]) {
      assert Follows(h[i - 1].row, h[i]);
    }
  }

  /** Every version was made by the feature repository, which announces it. */
  predicate Announces(h: seq<Version>) {
    forall i | 0 <= i < |h| :: h[i].origin.Initial? || h[i].origin.Edit?
  }

  /** The outbox mirrors history. In every run the events of a feature, by outbox id, are its creation
      and its edits in version order, with nothing for an import or a revert, and, exactly if it is
      deleted, one deletion that names the last version; writes that gave up left nothing. A feature that
      was neither imported nor reverted has one event for every version. */
  lemma OutboxMirrorsHistory(steps: seq<Step>, f: string)
    requires Valid(Start, steps)
    ensures var s := Run(Start, steps);
            var events, h := EventsOf(s.outbox, f, s.nextId), HistoryOf(s, f);
            var deleted := f in s.rows && s.rows[f].isDeleted;
            && events == Story(f, h) + (if deleted then [FeatureDeleted(f, |h|, s.rows[f].updatedBy)] else [])
            && (Announces(h) ==>
                  && |events| == |h| + (if deleted then 1 else 0)
                  && (h != [] ==>
                        events[0] == FeatureCreated(f, Snapshot(h[0].row.geometry, h[0].row.properties, h[0].row.name),
                                                    h[0].row.createdBy))
                  && forall i | 1 <= i < |h| ::
                       var row := h[i].row;
                       events[i] == FeatureUpdated(f, i + 1, row.geometry, row.properties, row.updatedBy))
  {
    StartInv();
    RunKeepsInv(Start, steps, f);
    var s := Run(Start, steps);
    assert RowOk(s, f) && EventsTell(s, f);
    InitialIsFirst(HistoryOf(s, f));
    if Announces(HistoryOf(s, f)) {
      StoryAt(f, HistoryOf(s, f));
    }
  }

  lemma {:induction false} StoryAt(f: string, h: seq<Version>)
    requires Announces(h) && forall i | 0 <= i < |h| :: h[i].origin.Initial? <==> i == 0
    ensures |Story(f, h)| == |h|
    ensures forall i | 0 <= i < |h| ::
              Story(f, h)[i] == if i == 0 then CreatedEvent(f, h[0].row) else UpdatedEvent(f, h[i].row)
  {
    if h != [] {
      StoryAt(f, h[..|h| - 1]);
    }
  }

  /** What a history announces: its creation is that of its first version, and no deletion is among it. */
  lemma {:induction false} StoryTells(f: string, h: seq<Version>)
    requires forall i | 0 <= i < |h| :: h[i].origin.Initial? ==> i == 0
    ensures forall e | e in Story(f, h) ::
              !e.FeatureDeleted?
              && (e.FeatureCreated? ==> h != [] && h[0].origin.Initial? && e == CreatedEvent(f, h[0].row))
  {
    if h != [] {
      StoryTells(f, h[..|h| - 1]);
    }
  }
}
