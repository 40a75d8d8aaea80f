/** Reverts racing with each other, with version recording and with any other write. */
module Reverts {
  import opened Common
  import opened Outbox
  import opened Features
  import opened Versions

  /** A revert reads its target and then the feature's version before its transaction begins. `reverts`
      is history only: the numbers of the feature's revert versions when its version was read. */
  datatype Client =
    | Idle
    | HasTarget(f: string, target: int, read: Snapshot)
    | HasBase(f: string, target: int, read: Snapshot, base: int, reverts: set<int>)

  /** One committed revert: the version it started from and the one it restored. */
  datatype Done = Done(f: string, base: int, target: int)

  datatype State = State(rows: map<string, FeatureRow>, versions: Versions, clients: map<nat, Client>, done: seq<Done>)

  datatype Step =
    | GetTarget(c: nat, f: string, target: int)
    | GetBase(c: nat)
    | Commit(c: nat, userId: string)
    | GiveUp(c: nat)
    | RecordVersion(key: (string, int), version: VersionRow)  // the consumer's insert, under the unique key
    | WriteFeature(f: string, row: FeatureRow)                // a create, update or delete of a feature

  function ClientOf(s: State, c: nat): Client {
    if c in s.clients then s.clients[c] else Idle
  }

  /** The numbers of a feature's revert versions. */
  function RevertNumbers(vs: Versions, f: string): set<int> {
    set k | k in vs && k.0 == f && vs[k].changeType == Reverted :: k.1
  }

  /** What the feature repository writes: version 1 of a new feature, the next version of a live one, or
      the deletion mark under the same version. */
  predicate IsWrite(rows: map<string, FeatureRow>, f: string, row: FeatureRow) {
    if f !in rows then row.version == 1 && !row.isDeleted
    else
      && !rows[f].isDeleted
      && (|| (row.version == rows[f].version + 1 && !row.isDeleted)
          || row == rows[f].(isDeleted := true, updatedBy := row.updatedBy))
  }

  function Outcome(s: State, c: nat, userId: string): Option<(map<string, FeatureRow>, Versions)>
    requires ClientOf(s, c).HasBase? && (ClientOf(s, c).f, ClientOf(s, c).target) in s.versions
  {
    var k := ClientOf(s, c);
    RevertTx(s.rows, s.versions, k.f, k.target, k.read, k.base + 1, userId)
  }

  predicate Enabled(s: State, step: Step) {
    match step
    case GetTarget(c, f, target) => ClientOf(s, c) == Idle && (f, target) in s.versions
    case GetBase(c) => ClientOf(s, c).HasTarget? && ClientOf(s, c).f in s.rows && !s.rows[ClientOf(s, c).f].isDeleted
    case Commit(c, userId) =>
      ClientOf(s, c).HasBase? && (ClientOf(s, c).f, ClientOf(s, c).target) in s.versions && Outcome(s, c, userId).Some?
    case GiveUp(_) => true
    case RecordVersion(key, row) => key !in s.versions && row.changeType != Reverted
    case WriteFeature(f, row) => IsWrite(s.rows, f, row)
  }

  function Do(s: State, step: Step): State
    requires Enabled(s, step)
  {
    match step
    case GetTarget(c, f, target) =>
      s.(clients := s.clients[c := HasTarget(f, target, s.versions[(f, target)].snapshot)])
    case GetBase(c) =>
      var k := s.clients[c];
      s.(clients := s.clients[c := HasBase(k.f, k.target, k.read, s.rows[k.f].version,
                                        RevertNumbers(s.versions, k.f))])
    case Commit(c, userId) =>
      var k, r := s.clients[c], Outcome(s, c, userId).value;
      State(r.0, r.1, s.clients[c := Idle], s.done + [Done(k.f, k.base, k.target)])
    case GiveUp(c) => s.(clients := s.clients[c := Idle])
    case RecordVersion(key, row) => s.(versions := s.versions[key := row])
    case WriteFeature(f, row) => s.(rows := s.rows[f := row])
  }

  ghost predicate DoneOk(s: State, d: Done) {
    && (d.f, d.base + 1) in s.versions && (d.f, d.target) in s.versions
    && s.versions[(d.f, d.base + 1)].changeType == Reverted
    && s.versions[(d.f, d.base + 1)].snapshot == s.versions[(d.f, d.target)].snapshot
  }

  /** What a client has read is still true, and every committed revert left its version row. */
  ghost predicate Inv(s: State) {
    && (forall c | c in s.clients && !s.clients[c].Idle? ::
          (s.clients[c].f, s.clients[c].target) in s.versions
          && s.versions[(s.clients[c].f, s.clients[c].target)].snapshot == s.clients[c].read
          && (s.clients[c].HasBase? ==> s.clients[c].f in s.rows))
    && (forall i | 0 <= i < |s.done| :: DoneOk(s, s.done[i]))
    && (forall i, j | 0 <= i < j < |s.done| :: s.done[i].f != s.done[j].f || s.done[i].base != s.done[j].base)
  }

  ghost predicate Grows(s: State, t: State) {
    forall k | k in s.versions :: k in t.versions && t.versions[k] == s.versions[k]
  }

  lemma StepGrows(s: State, step: Step)
    requires Enabled(s, step)
    ensures Grows(s, Do(s, step))
  {
  }

  lemma StepKeepsInv(s: State, step: Step)
    requires Inv(s) && Enabled(s, step)
    ensures Inv(Do(s, step))
  {
    StepGrows(s, step);
    var t := Do(s, step);
    forall i | 0 <= i < |t.done| ensures DoneOk(t, t.done[i]) {
      if i < |s.done| {
        assert t.done[i] == s.done[i] && DoneOk(s, s.done[i]);
      }
    }
    forall i, j | 0 <= i < j < |t.done| ensures t.done[i].f != t.done[j].f || t.done[i].base != t.done[j].base {
      assert t.done[i] == s.done[i];
      if j < |s.done| {
        assert t.done[j] == s.done[j];
      } else {
        assert DoneOk(s, s.done[i]);
      }
    }
  }

  predicate Valid(s: State, steps: seq<Step>)
    decreases |steps|
  {
    steps == [] || (Enabled(s, steps[0]) && Valid(Do(s, steps[0]), steps[1..]))
  }

  function Run(s: State, steps: seq<Step>): State
    requires Valid(s, steps)
    decreases |steps|
  {
    if steps == [] then s else Run(Do(s, steps[0]), steps[1..])
  }

  /** Append-only over whole runs: no version row that exists is ever changed or removed. */
  lemma {:induction false} VersionsAreAppendOnly(s: State, steps: seq<Step>)
    requires Inv(s) && Valid(s, steps)
    ensures Inv(Run(s, steps)) && Grows(s, Run(s, steps))
    decreases |steps|
  {
    if steps != [] {
      StepKeepsInv(s, steps[0]);
      StepGrows(s, steps[0]);
      VersionsAreAppendOnly(Do(s, steps[0]), steps[1..]);
    }
  }

  const Start := State(map[], map[], map[], [])

  /** Of all reverts of a feature that started from the same version, at most one commits, whatever
      else is written meanwhile; each committed one left a version equal to its target. */
  lemma OneRevertPerBase(steps: seq<Step>, i: nat, j: nat)
    requires Valid(Start, steps) && i < |Run(Start, steps).done| && j < |Run(Start, steps).done|
    ensures var s := Run(Start, steps);
            && (s.done[i].f == s.done[j].f && s.done[i].base == s.done[j].base ==> i == j)
            && DoneOk(s, s.done[i])
  {
    VersionsAreAppendOnly(Start, steps);
  }

  // ---- an undisturbed revert ----

  lemma RunStep(s: State, step: Step, rest: seq<Step>)
    requires Enabled(s, step)
    ensures Valid(s, [step] + rest) <==> Valid(Do(s, step), rest)
    ensures Valid(Do(s, step), rest) ==> Run(s, [step] + rest) == Run(Do(s, step), rest)
  {
    assert ([step] + rest)[1..] == rest;
  }

  /** Undisturbed, a revert goes through exactly if the target is recorded, the feature is live and the
      next number is free. It writes the target's snapshot into the feature and into one new version. */
  lemma UndisturbedRevert(s: State, c: nat, f: string, target: int, userId: string)
    requires ClientOf(s, c) == Idle
    ensures var steps := [GetTarget(c, f, target)] + ([GetBase(c)] + ([Commit(c, userId)] + []));
            && (Valid(s, steps) <==>
                  && (f, target) in s.versions && f in s.rows && !s.rows[f].isDeleted
                  && (f, s.rows[f].version + 1) !in s.versions)
            && (Valid(s, steps) ==>
                  var t, row, snapshot := Run(s, steps), s.rows[f], s.versions[(f, target)].snapshot;
                  && t.rows == s.rows[f := row.(geometry := snapshot.geometry, name := snapshot.name,
                                                properties := snapshot.properties, version := row.version + 1,
                                                updatedBy := userId)]
                  && t.versions == s.versions[(f, row.version + 1) := VersionRow(Reverted, snapshot, userId)]
                  && t.done == s.done + [Done(f, row.version, target)] && ClientOf(t, c) == Idle)
  {
    if Enabled(s, GetTarget(c, f, target)) {
      var s1 := Do(s, GetTarget(c, f, target));
      RunStep(s, GetTarget(c, f, target), [GetBase(c)] + ([Commit(c, userId)] + []));
      if Enabled(s1, GetBase(c)) {
        var s2 := Do(s1, GetBase(c));
        RunStep(s1, GetBase(c), [Commit(c, userId)] + []);
        if Enabled(s2, Commit(c, userId)) {
          RunStep(s2, Commit(c, userId), []);
        }
      }
    }
  }

  /** What others can write at any time: a new feature at version 1, the next version of a live one, its
      deletion, and any version row but a revert's under a free number. Giving up writes nothing. */
  lemma OthersCanWrite(s: State, f: string, row: FeatureRow, key: (string, int), version: VersionRow, c: nat)
    ensures Enabled(s, WriteFeature(f, row)) <==>
            || (f !in s.rows && row.version == 1 && !row.isDeleted)
            || (f in s.rows && !s.rows[f].isDeleted && row.version == s.rows[f].version + 1 && !row.isDeleted)
            || (f in s.rows && !s.rows[f].isDeleted && row == s.rows[f].(isDeleted := true, updatedBy := row.updatedBy))
    ensures Enabled(s, WriteFeature(f, row)) ==> Do(s, WriteFeature(f, row)) == s.(rows := s.rows[f := row])
    ensures key !in s.versions && version.changeType != Reverted ==>
              Enabled(s, RecordVersion(key, version))
              && Do(s, RecordVersion(key, version)) == s.(versions := s.versions[key := version])
    ensures Enabled(s, GiveUp(c)) && Do(s, GiveUp(c)) == s.(clients := s.clients[c := Idle])
  {
  }

  // ---- what a revert overwrites ----

  predicate Writes(s: State, step: Step, f: string)
    requires Enabled(s, step)
  {
    match step
    case Commit(c, _) => s.clients[c].f == f
    case WriteFeature(g, _) => g == f
    case _ => false
  }

  /** The rows that a stretch of a run writes for feature `f`, in commit order. */
  function Written(s: State, steps: seq<Step>, f: string): seq<FeatureRow>
    requires Inv(s) && Valid(s, steps)
    decreases |steps|
  {
    if steps == [] then []
    else
      StepKeepsInv(s, steps[0]);
      var t := Do(s, steps[0]);
      (if Writes(s, steps[0], f) then [t.rows[f]] else []) + Written(t, steps[1..], f)
  }

  /** The step is none of client `c`'s own. */
  predicate OfOthers(c: nat, step: Step) {
    match step
    case GetTarget(d, _, _) => d != c
    case GetBase(d) => d != c
    case Commit(d, _) => d != c
    case GiveUp(d) => d != c
    case _ => true
  }

  /** Over any stretch in which others are at work the row is the last one written, and a waiting client
      keeps what it read. */
  lemma {:induction false} WrittenIsLast(s: State, steps: seq<Step>, f: string, c: nat)
    requires Inv(s) && Valid(s, steps) && f in s.rows && c in s.clients
    requires forall i | 0 <= i < |steps| :: OfOthers(c, steps[i])
    ensures var t, w := Run(s, steps), Written(s, steps, f);
            && f in t.rows && t.rows[f] == (if w == [] then s.rows[f] else w[|w| - 1])
            && c in t.clients && t.clients[c] == s.clients[c]
    decreases |steps|
  {
    if steps != [] {
      StepKeepsInv(s, steps[0]);
      WrittenIsLast(Do(s, steps[0]), steps[1..], f, c);
    }
  }

  /** Between two reverts of a feature its version and its deletion mark only grow. */
  ghost predicate Grew(s: State, t: State, f: string, wrote: bool)
    requires f in s.rows && f in t.rows
  {
    && RevertNumbers(s.versions, f) <= RevertNumbers(t.versions, f)
    && (RevertNumbers(t.versions, f) == RevertNumbers(s.versions, f) ==>
          && s.rows[f].version <= t.rows[f].version && (s.rows[f].isDeleted ==> t.rows[f].isDeleted)
          && (wrote <==> s.rows[f].version < t.rows[f].version || s.rows[f].isDeleted != t.rows[f].isDeleted))
    && (!wrote ==> t.rows[f] == s.rows[f] && RevertNumbers(t.versions, f) == RevertNumbers(s.versions, f))
  }

  lemma StepGrew(s: State, step: Step, f: string)
    requires Inv(s) && Enabled(s, step) && f in s.rows
    ensures f in Do(s, step).rows && Grew(s, Do(s, step), f, Writes(s, step, f))
  {
    var t := Do(s, step);
    StepGrows(s, step);
    assert forall k | k in s.versions :: k in t.versions && t.versions[k] == s.versions[k];
    if step.Commit? && s.clients[step.c].f == f {
      var k := (f, s.clients[step.c].base + 1);
      assert k.1 in RevertNumbers(t.versions, f);
      assert k.1 !in RevertNumbers(s.versions, f);
    } else {
      assert forall k | k in t.versions && k.0 == f && t.versions[k].changeType == Reverted :: k in s.versions;
    }
  }

  lemma {:induction false} RunGrew(s: State, steps: seq<Step>, f: string)
    requires Inv(s) && Valid(s, steps) && f in s.rows
    ensures f in Run(s, steps).rows && Grew(s, Run(s, steps), f, Written(s, steps, f) != [])
    decreases |steps|
  {
    if steps != [] {
      StepGrew(s, steps[0], f);
      StepKeepsInv(s, steps[0]);
      RunGrew(Do(s, steps[0]), steps[1..], f);
    }
  }

  function InstalledOver(row: FeatureRow, k: Client, userId: string): FeatureRow
    requires k.HasBase?
  {
    row.(geometry := k.read.geometry, name := k.read.name, properties := k.read.properties,
         version := k.base + 1, updatedBy := userId)
  }

  /** Over the row that is there, whatever it is by now, a commit puts what the client read. */
  lemma CommitInstalls(s: State, c: nat, userId: string)
    requires Inv(s) && Enabled(s, Commit(c, userId))
    ensures var t, k := Do(s, Commit(c, userId)), s.clients[c];
            && k.f in s.rows && (k.f, k.target) in s.versions && s.versions[(k.f, k.target)].snapshot == k.read
            && t.rows == s.rows[k.f := InstalledOver(s.rows[k.f], k, userId)]
            && t.versions == s.versions[(k.f, k.base + 1) := VersionRow(Reverted, k.read, userId)]
  {
  }

  /** The revert of client `c` reads its base after `before`, others then do `between`, and it commits.
      It puts the target it once read over the last row that was written. It loses somebody's write
      exactly if the row's version or deletion mark has changed since it read them or another revert of
      the feature has been recorded since: each of the three would have to be checked inside its
      transaction, and none is. */
  lemma RevertLosesNoWriteExactly(before: seq<Step>, c: nat, between: seq<Step>, userId: string)
    requires Valid(Start, before) && Enabled(Run(Start, before), GetBase(c))
    requires Valid(Do(Run(Start, before), GetBase(c)), between)
    requires forall i | 0 <= i < |between| :: OfOthers(c, between[i])
    requires Enabled(Run(Do(Run(Start, before), GetBase(c)), between), Commit(c, userId))
    ensures var s1 := Do(Run(Start, before), GetBase(c));
            var s2 := Run(s1, between);
            var k := s1.clients[c];
            && Inv(s1) && k.f in s1.rows && k.f in s2.rows
            && var w := Written(s1, between, k.f);
            && s2.rows[k.f] == (if w == [] then s1.rows[k.f] else w[|w| - 1])
            && Do(s2, Commit(c, userId)).rows == s2.rows[k.f := InstalledOver(s2.rows[k.f], k, userId)]
            && (w == [] <==> && s2.rows[k.f].version == k.base && !s2.rows[k.f].isDeleted
                             && RevertNumbers(s2.versions, k.f) == k.reverts)
  {
    var s0 := Run(Start, before);
    var s1 := Do(s0, GetBase(c));
    VersionsAreAppendOnly(Start, before);
    StepKeepsInv(s0, GetBase(c));
    var f := s1.clients[c].f;
    WrittenIsLast(s1, between, f, c);
    RunGrew(s1, between, f);
    VersionsAreAppendOnly(s1, between);
    CommitInstalls(Run(s1, between), c, userId);
  }

  /** A feature is created and its version recorded; client 0 reads both for a revert; then another
      write commits. */
  function Race(row: FeatureRow, other: FeatureRow): seq<Step> {
    [WriteFeature("f", row),
     RecordVersion(("f", 1), VersionRow(Created, Snapshot(row.geometry, row.properties, row.name), row.createdBy)),
     GetTarget(0, "f", 1), GetBase(0), WriteFeature("f", other)]
  }

  function SampleRow(): FeatureRow {
    FeatureRow("old", None, "Point", Geometry("Point", "0"), "{}", [], 1, "u", "u", false)
  }

  /** A rename that commits between a revert's read and its transaction is lost without an error,
      and its version number is used twice. */
  lemma RevertCanLoseAnUpdate()
    ensures var row := SampleRow();
            var renamed := row.(name := "new", version := 2);
            && Valid(Start, Race(row, renamed))
            && var s := Run(Start, Race(row, renamed));
               && s.rows == map["f" := renamed] && Enabled(s, Commit(0, "u"))
               && Do(s, Commit(0, "u")).rows == map["f" := row.(version := renamed.version)]
  {
  }

  /** A deletion does not raise the version number. A revert that read the number before rewrites the
      deleted feature although the number is still the one it read, and the row stays deleted. */
  lemma RevertCanRewriteDeleted()
    ensures var row := SampleRow();
            var gone := row.(isDeleted := true, updatedBy := "v");
            && Valid(Start, Race(row, gone))
            && var s := Run(Start, Race(row, gone));
               && s.rows == map["f" := gone] && Enabled(s, Commit(0, "u"))
               && s.clients[0].base == gone.version
               && Do(s, Commit(0, "u")).rows == map["f" := gone.(version := 2, updatedBy := "u")]
  {
  }

  /** Two clients revert, one from version 1 and one from version 2. The first sets the number back to 2,
      so the second finds the live feature at the very number it read and still loses the first's write. */
  lemma RevertCanHideBehindNumber()
    ensures var row := SampleRow();
            var renamed := row.(name := "new", version := 2);
            var steps := [GetTarget(1, "f", 1), GetBase(1), Commit(0, "u")];
            && Valid(Start, Race(row, renamed)) && Valid(Run(Start, Race(row, renamed)), steps)
            && var s := Run(Run(Start, Race(row, renamed)), steps);
               && Enabled(s, Commit(1, "v")) && "f" in s.rows
               && s.rows["f"].version == s.clients[1].base && !s.rows["f"].isDeleted
               && s.rows["f"] != renamed
  {
    RevertCanLoseAnUpdate();
    SecondReader(Run(Start, Race(SampleRow(), SampleRow().(name := "new", version := 2))));
  }

  lemma SecondReader(s: State)
    requires Enabled(s, Commit(0, "u")) && "f" in s.rows && ClientOf(s, 1) == Idle && ("f", 1) in s.versions
    requires s.clients[0].f == "f" && s.clients[0].base == 1 && ("f", 3) !in s.versions
    requires s.rows["f"].version == 2 && !s.rows["f"].isDeleted && s.clients[0].read.name != s.rows["f"].name
    ensures var steps := [GetTarget(1, "f", 1), GetBase(1), Commit(0, "u")];
            && Valid(s, steps)
            && var t := Run(s, steps);
               && Enabled(t, Commit(1, "v")) && "f" in t.rows
               && t.rows["f"].version == t.clients[1].base && !t.rows["f"].isDeleted && t.rows["f"] != s.rows["f"]
  {
    var s1 := Do(s, GetTarget(1, "f", 1));
    var s2 := Do(s1, GetBase(1));
    assert Valid(s2, [Commit(0, "u")]) && Run(s2, [Commit(0, "u")]) == Do(s2, Commit(0, "u"));
    assert [GetBase(1), Commit(0, "u")][1..] == [Commit(0, "u")];
    assert [GetTarget(1, "f", 1), GetBase(1), Commit(0, "u")][1..] == [GetBase(1), Commit(0, "u")];
  }
}
