/** Any number of relay workers, writers and the cleanup job over one outbox. */
module RelayProtocol {
  import opened Common
  import opened Outbox

  /** A worker inside its transaction has locked `batch`, handled its first `done` events and knows
      which of them threw. Nothing it writes is visible before it commits. */
  datatype Worker = Idle | Relaying(batch: seq<nat>, done: nat, threw: set<nat>)

  /** Besides the tables and workers this is history: every event ever committed, the ids whose emit has
      returned, the ids removed by the cleanup job, when each event was published, and when cleaned, and
      in how many committed rounds its emit threw. */
  datatype State = State(tables: Tables, workers: map<nat, Worker>,
                         saved: map<nat, Event>, sent: set<nat>, cleaned: set<nat>,
                         publishTimes: map<nat, int>, cleanTimes: map<nat, int>, failures: map<nat, nat>)

  datatype Step =
    | Insert(id: nat, event: Event)   // a writer's transaction commits; sequence values commit in any order
    | Fetch(w: nat, picked: seq<nat>)
    | Emit(w: nat, throws: bool)
    | Commit(w: nat, now: int)
    | Abort(w: nat)
    | CleanUp(now: int)

  predicate Busy(s: State, w: nat) {
    w in s.workers && s.workers[w].Relaying?
  }

  /** Rows under FOR UPDATE lock. */
  ghost function Locked(s: State): set<nat> {
    set w, i | w in s.workers && s.workers[w].Relaying? && 0 <= i < |s.workers[w].batch| :: s.workers[w].batch[i]
  }

  ghost predicate Enabled(s: State, step: Step) {
    match step
    case Insert(id, _) => id !in s.saved
    case Fetch(w, picked) => !Busy(s, w) && IsBatch(s.tables.outbox, Locked(s), BATCH_LIMIT, picked)
    case Emit(w, _) => Busy(s, w) && s.workers[w].done < |s.workers[w].batch|
    case Commit(w, _) => Busy(s, w) && s.workers[w].done == |s.workers[w].batch|
    case Abort(w) => Busy(s, w)
    case CleanUp(_) => true
  }

  function Current(s: State, w: nat): nat
    requires Busy(s, w) && s.workers[w].done < |s.workers[w].batch|
  {
    s.workers[w].batch[s.workers[w].done]
  }

  function Failures(s: State, id: nat): nat {
    if id in s.failures then s.failures[id] else 0
  }

  ghost function Do(s: State, step: Step): State
    requires Enabled(s, step)
  {
    match step
    case Insert(id, e) =>
      s.(tables := s.tables.(outbox := s.tables.outbox[id := NewRow(e)]), saved := s.saved[id := e])
    case Fetch(w, picked) => s.(workers := s.workers[w := Relaying(picked, 0, {})])
    case Emit(w, throws) =>
      var k, id := s.workers[w], Current(s, w);
      s.(workers := s.workers[w := k.(done := k.done + 1, threw := if throws then k.threw + {id} else k.threw)],
         sent := if throws then s.sent else s.sent + {id})
    case Commit(w, now) =>
      var k := s.workers[w];
      s.(workers := s.workers[w := Idle], tables := Settle(s.tables, k.batch, k.threw, now),
         publishTimes := s.publishTimes + map id | id in k.batch && id !in k.threw :: now,
         failures := s.failures + map id | id in k.batch && id in k.threw :: Failures(s, id) + 1)
    case Abort(w) => s.(workers := s.workers[w := Idle])
    case CleanUp(now) =>
      var left := Cleanup(s.tables.outbox, now);
      var gone := s.tables.outbox.Keys - left.Keys;
      s.(tables := s.tables.(outbox := left), cleaned := s.cleaned + gone,
         cleanTimes := s.cleanTimes + map id | id in gone :: now)
  }

  // ---- invariants ----

  ghost predicate Distinct(batch: seq<nat>) {
    forall i, j | 0 <= i < j < |batch| :: batch[i] != batch[j]
  }

  /** What a busy worker may rely on: its rows are still there, unpublished, and it has emitted
      without an exception exactly those of its handled events that did not throw. */
  ghost predicate WorkerOk(s: State, w: nat)
    requires Busy(s, w)
  {
    var k := s.workers[w];
    && k.done <= |k.batch| && Distinct(k.batch)
    && (forall id | id in k.batch :: id in Unpublished(s.tables.outbox))
    && (forall id | id in k.batch[..k.done] && id !in k.threw :: id in s.sent)
  }

  ghost predicate Disjoint(s: State) {
    forall v, w | Busy(s, v) && Busy(s, w) && v != w ::
      forall id | id in s.workers[v].batch :: id !in s.workers[w].batch
  }

  function DeadIds(dlq: seq<DeadLetter>): set<nat> {
    set i | 0 <= i < |dlq| :: dlq[i].originalId
  }

  /** Every saved event is in exactly one place, unchanged; dead letters are unique; only events
      whose emit returned are ever published or cleaned. */
  ghost predicate Placed(s: State) {
    && s.saved.Keys == s.tables.outbox.Keys + DeadIds(s.tables.dlq) + s.cleaned
    && s.tables.outbox.Keys !! DeadIds(s.tables.dlq) !! s.cleaned
    && UniqueIds(s.tables.dlq)
    && (forall id | id in s.tables.outbox :: id in s.saved && s.tables.outbox[id].event == s.saved[id])
    && (forall i | 0 <= i < |s.tables.dlq| :: s.tables.dlq[i].originalId in s.saved
          && s.tables.dlq[i].event == s.saved[s.tables.dlq[i].originalId])
    && (forall id | id in s.tables.outbox && s.tables.outbox[id].publishedAt.Some? :: id in s.sent)
    && s.cleaned <= s.sent
  }

  ghost predicate Inv(s: State) {
    && RetriesBounded(s.tables)
    && Placed(s)
    && Disjoint(s)
    && (forall w | Busy(s, w) :: WorkerOk(s, w))
  }

  // ---- each step ----

  lemma InsertKeepsInv(s: State, id: nat, e: Event)
    requires Inv(s) && Enabled(s, Insert(id, e))
    ensures Inv(Do(s, Insert(id, e)))
  {
    var s' := Do(s, Insert(id, e));
    forall w | Busy(s', w) ensures WorkerOk(s', w) {
      assert Busy(s, w);
    }
  }

  lemma FetchKeepsInv(s: State, w: nat, picked: seq<nat>)
    requires Inv(s) && Enabled(s, Fetch(w, picked))
    ensures Inv(Do(s, Fetch(w, picked)))
  {
    var s' := Do(s, Fetch(w, picked));
    forall v | Busy(s', v)
      ensures WorkerOk(s', v)
      ensures v != w ==> Busy(s, v) && forall id | id in picked :: id !in s'.workers[v].batch
    {
      if v != w {
        assert Busy(s, v);
        forall id | id in picked ensures id !in s.workers[v].batch {
          assert id in Unpublished(s.tables.outbox) - Locked(s);
        }
      }
    }
  }

  lemma EmitKeepsInv(s: State, w: nat, throws: bool)
    requires Inv(s) && Enabled(s, Emit(w, throws))
    ensures Inv(Do(s, Emit(w, throws)))
  {
    var s' := Do(s, Emit(w, throws));
    forall v | Busy(s', v) ensures WorkerOk(s', v) {
      assert Busy(s, v) && WorkerOk(s, v);
      var k := s.workers[w];
      assert k.batch[..k.done + 1] == k.batch[..k.done] + [k.batch[k.done]];
    }
    assert forall v | Busy(s', v) :: Busy(s, v) && s'.workers[v].batch == s.workers[v].batch;
  }

  lemma AbortKeepsInv(s: State, w: nat)
    requires Inv(s) && Enabled(s, Abort(w))
    ensures Inv(Do(s, Abort(w)))
  {
    var s' := Do(s, Abort(w));
    forall v | Busy(s', v) ensures WorkerOk(s', v) {
      assert Busy(s, v) && WorkerOk(s, v);
    }
  }

  lemma CleanUpKeepsInv(s: State, now: int)
    requires Inv(s)
    ensures Inv(Do(s, CleanUp(now)))
  {
    var s' := Do(s, CleanUp(now));
    forall v | Busy(s', v) ensures WorkerOk(s', v) {
      assert Busy(s, v) && WorkerOk(s, v);
      forall id | id in s.workers[v].batch ensures id in Unpublished(s'.tables.outbox) {
        assert id in Unpublished(s.tables.outbox);
      }
    }
  }

  ghost predicate UniqueIds(d: seq<DeadLetter>) {
    forall i, j | 0 <= i < j < |d| :: d[i].originalId != d[j].originalId
  }

  lemma UniqueIdsConcat(a: seq<DeadLetter>, b: seq<DeadLetter>)
    requires UniqueIds(a) && UniqueIds(b) && DeadIds(a) !! DeadIds(b)
    ensures UniqueIds(a + b)
  {
    forall i, j | 0 <= i < j < |a + b| ensures (a + b)[i].originalId != (a + b)[j].originalId {
      if i < |a| <= j {
        assert a[i].originalId in DeadIds(a) && b[j - |a|].originalId in DeadIds(b);
      } else if |a| <= i {
        assert b[i - |a|].originalId != b[j - |a|].originalId;
      }
    }
  }

  lemma {:induction false} DeadLettersUnique(outbox: map<nat, OutboxRow>, batch: seq<nat>, threw: set<nat>)
    requires Distinct(batch)
    ensures UniqueIds(DeadLetters(outbox, batch, threw))
    ensures forall id | id in DeadIds(DeadLetters(outbox, batch, threw)) :: id in batch && id in outbox
  {
    DeadLettersAreExhausted(outbox, batch, threw);
    var d := DeadLetters(outbox, batch, threw);
    assert forall i | 0 <= i < |d| :: d[i] in d;
    if batch != [] {
      var front, last := batch[..|batch| - 1], batch[|batch| - 1];
      DeadLettersUnique(outbox, front, threw);
      assert forall i | 0 <= i < |front| :: front[i] == batch[i] && batch[i] != last;
      UniqueIdsConcat(DeadLetters(outbox, front, threw), d[|DeadLetters(outbox, front, threw)|..]);
      assert d == DeadLetters(outbox, front, threw) + d[|DeadLetters(outbox, front, threw)|..];
    }
  }

  /** Where a settled batch leaves its rows. */
  lemma SettlePlaces(t: Tables, batch: seq<nat>, threw: set<nat>, now: int)
    ensures var u := Settle(t, batch, threw, now);
            var dead := set id | id in t.outbox && id in batch && id in threw && Exhausted(t.outbox[id]);
            && u.outbox.Keys == t.outbox.Keys - dead
            && DeadIds(u.dlq) == DeadIds(t.dlq) + dead
  {
    DeadLettersAreExhausted(t.outbox, batch, threw);
    var u := Settle(t, batch, threw, now);
    var more := DeadLetters(t.outbox, batch, threw);
    var dead := set id | id in t.outbox && id in batch && id in threw && Exhausted(t.outbox[id]);
    forall id ensures id in DeadIds(u.dlq) <==> id in DeadIds(t.dlq) + dead {
      if id in DeadIds(u.dlq) {
        var i :| 0 <= i < |u.dlq| && u.dlq[i].originalId == id;
        if i >= |t.dlq| {
          assert u.dlq[i] in more;
        }
      }
      if id in DeadIds(t.dlq) {
        var i :| 0 <= i < |t.dlq| && t.dlq[i].originalId == id;
        assert u.dlq[i] == t.dlq[i];
      }
      if id in dead {
        var i :| 0 <= i < |more| && more[i].originalId == id;
        assert u.dlq[|t.dlq| + i] == more[i];
      }
    }
  }

  lemma CommitKeepsDead(s: State, w: nat, now: int)
    requires Inv(s) && Enabled(s, Commit(w, now))
    ensures var u := Do(s, Commit(w, now)).tables;
            && UniqueIds(u.dlq)
            && (forall i | 0 <= i < |u.dlq| ::
                  u.dlq[i].originalId in s.saved && u.dlq[i].event == s.saved[u.dlq[i].originalId])
  {
    var k, t := s.workers[w], s.tables;
    assert WorkerOk(s, w);
    var more := DeadLetters(t.outbox, k.batch, k.threw);
    DeadLettersAreExhausted(t.outbox, k.batch, k.threw);
    DeadLettersUnique(t.outbox, k.batch, k.threw);
    UniqueIdsConcat(t.dlq, more);
    assert forall i | 0 <= i < |more| :: more[i] in more && more[i].originalId in t.outbox;
  }

  lemma CommitKeepsPlaced(s: State, w: nat, now: int)
    requires Inv(s) && Enabled(s, Commit(w, now))
    ensures Placed(Do(s, Commit(w, now)))
  {
    var k, s' := s.workers[w], Do(s, Commit(w, now));
    assert WorkerOk(s, w);
    SettlePlaces(s.tables, k.batch, k.threw, now);
    CommitKeepsDead(s, w, now);
    forall id | id in s'.tables.outbox && s'.tables.outbox[id].publishedAt.Some? ensures id in s'.sent {
      if id in k.batch {
        assert k.batch[..k.done] == k.batch;
      }
    }
  }

  /** A commit publishes, counts or removes only the rows its own worker holds. */
  lemma CommitKeepsWorkers(s: State, w: nat, now: int, v: nat)
    requires Inv(s) && Enabled(s, Commit(w, now)) && Busy(Do(s, Commit(w, now)), v)
    ensures WorkerOk(Do(s, Commit(w, now)), v)
  {
    var s' := Do(s, Commit(w, now));
    assert Busy(s, v) && v != w && WorkerOk(s, v);
    forall id | id in s.workers[v].batch ensures id in Unpublished(s'.tables.outbox) {
      assert id !in s.workers[w].batch && id in Unpublished(s.tables.outbox);
    }
  }

  lemma CommitKeepsInv(s: State, w: nat, now: int)
    requires Inv(s) && Enabled(s, Commit(w, now))
    ensures Inv(Do(s, Commit(w, now)))
  {
    var s' := Do(s, Commit(w, now));
    SettleKeepsBounds(s.tables, s.workers[w].batch, s.workers[w].threw, now);
    CommitKeepsPlaced(s, w, now);
    forall v | Busy(s', v) ensures WorkerOk(s', v) {
      CommitKeepsWorkers(s, w, now, v);
    }
    assert forall v | Busy(s', v) :: Busy(s, v) && s'.workers[v] == s.workers[v];
  }

  lemma StepKeepsInv(s: State, step: Step)
    requires Inv(s) && Enabled(s, step)
    ensures Inv(Do(s, step))
  {
    match step
    case Insert(id, e) => InsertKeepsInv(s, id, e);
    case Fetch(w, picked) => FetchKeepsInv(s, w, picked);
    case Emit(w, throws) => EmitKeepsInv(s, w, throws);
    case Commit(w, now) => CommitKeepsInv(s, w, now);
    case Abort(w) => AbortKeepsInv(s, w);
    case CleanUp(now) => CleanUpKeepsInv(s, now);
  }

  // ---- runs ----

  ghost predicate Valid(s: State, steps: seq<Step>)
    decreases |steps|
  {
    steps == [] || (Enabled(s, steps[0]) && Valid(Do(s, steps[0]), steps[1..]))
  }

  ghost function Run(s: State, steps: seq<Step>): State
    requires Valid(s, steps)
    decreases |steps|
  {
    if steps == [] then s else Run(Do(s, steps[0]), steps[1..])
  }

  const Start := State(Tables(map[], []), map[], map[], {}, {}, map[], map[], map[])

  lemma {:induction false} RunKeepsInv(s: State, steps: seq<Step>)
    requires Inv(s) && Valid(s, steps)
    ensures Inv(Run(s, steps))
    decreases |steps|
  {
    if steps != [] {
      StepKeepsInv(s, steps[0]);
      RunKeepsInv(Do(s, steps[0]), steps[1..]);
    }
  }

  predicate ExactlyOne(a: bool, b: bool, c: bool, d: bool) {
    (a || b || c || d) && !(a && (b || c || d)) && !(b && (c || d)) && !(c && d)
  }

  /** Where a saved event is, and what it looks like there. */
  ghost predicate OnePlace(s: State, id: nat) {
    var o := s.tables.outbox;
    var unpublished := id in o && o[id].publishedAt.None?;
    var published := id in o && o[id].publishedAt.Some?;
    var dead := exists i :: 0 <= i < |s.tables.dlq| && s.tables.dlq[i].originalId == id;
    && (id in s.saved ==> ExactlyOne(unpublished, published, dead, id in s.cleaned))
    && (id !in s.saved ==> !unpublished && !published && !dead && id !in s.cleaned)
    && (published || id in s.cleaned ==> id in s.sent)
    && (id in o ==> o[id].event == s.saved[id] && 0 <= o[id].retryCount <= MAX_RETRIES)
    && (forall i | 0 <= i < |s.tables.dlq| && s.tables.dlq[i].originalId == id ::
          && s.tables.dlq[i] == DeadLetter(id, s.saved[id], MAX_RETRIES)
          && forall j | 0 <= j < |s.tables.dlq| && s.tables.dlq[j].originalId == id :: j == i)
    && (forall v, w | Busy(s, v) && Busy(s, w) && id in s.workers[v].batch && id in s.workers[w].batch :: v == w)
  }

  lemma InOnePlace(s: State, id: nat)
    requires Inv(s)
    ensures OnePlace(s, id)
  {
  }

  /** After any interleaving: an event id was saved iff it is in exactly one of unpublished,
      published, dead-lettered and cleaned; no two workers hold the same row; the stored event is the
      saved one; published and cleaned events were emitted; dead letters have spent all retries. */
  lemma EveryEventInOnePlace(steps: seq<Step>, id: nat)
    requires Valid(Start, steps)
    ensures OnePlace(Run(Start, steps), id)
  {
    RunKeepsInv(Start, steps);
    InOnePlace(Run(Start, steps), id);
  }

  // ---- how long published events are kept ----

  /** A published row carries the time of the commit that published it; a cleaned one was published more
      than a day before it was cleaned. */
  ghost predicate Aged(s: State) {
    && (forall id | id in s.tables.outbox && s.tables.outbox[id].publishedAt.Some? ::
          id in s.publishTimes && s.tables.outbox[id].publishedAt.value == s.publishTimes[id])
    && (forall id | id in s.cleaned ::
          id in s.publishTimes && id in s.cleanTimes && s.cleanTimes[id] - s.publishTimes[id] > DAY_MS)
  }

  /** The rows that a worker holds are unpublished, and neither cleaned nor dead. */
  lemma HeldRows(s: State, w: nat, id: nat)
    requires Inv(s) && Busy(s, w) && id in s.workers[w].batch
    ensures id in Unpublished(s.tables.outbox) && id in s.saved && id !in s.cleaned && id !in DeadIds(s.tables.dlq)
  {
    assert WorkerOk(s, w);
  }

  lemma CommitKeepsAged(s: State, w: nat, now: int)
    requires Aged(s) && Enabled(s, Commit(w, now))
    requires forall id | id in s.workers[w].batch :: id in Unpublished(s.tables.outbox) && id !in s.cleaned
    ensures Aged(Do(s, Commit(w, now)))
  {
  }

  lemma StepKeepsAged(s: State, step: Step)
    requires Inv(s) && Aged(s) && Enabled(s, step)
    ensures Aged(Do(s, step))
  {
    match step
    case Commit(w, now) =>
      forall id | id in s.workers[w].batch ensures id in Unpublished(s.tables.outbox) && id !in s.cleaned {
        HeldRows(s, w, id);
      }
      CommitKeepsAged(s, w, now);
    case _ =>
  }

  lemma {:induction false} RunKeepsAged(s: State, steps: seq<Step>)
    requires Inv(s) && Aged(s) && Valid(s, steps)
    ensures Aged(Run(s, steps))
    decreases |steps|
  {
    if steps != [] {
      StepKeepsInv(s, steps[0]);
      StepKeepsAged(s, steps[0]);
      RunKeepsAged(Do(s, steps[0]), steps[1..]);
    }
  }

  ghost predicate KeptADay(s: State, id: nat, now: int) {
    && (id in s.cleaned ==>
          id in s.publishTimes && id in s.cleanTimes && s.cleanTimes[id] - s.publishTimes[id] > 86_400_000)
    && (id in s.tables.outbox && s.tables.outbox[id].publishedAt.Some? ==>
          id in s.publishTimes
          && (id in Cleanup(s.tables.outbox, now) <==> now - s.publishTimes[id] <= 86_400_000))
  }

  /** In every interleaving the cleanup has taken an event only if some round had published it, more than
      a day earlier, and it takes a published one at any time `now` exactly if that holds by then. */
  lemma CleanedADayAfterPublishing(steps: seq<Step>, id: nat, now: int)
    requires Valid(Start, steps)
    ensures KeptADay(Run(Start, steps), id, now)
  {
    RunKeepsAged(Start, steps);
    AgedIsKept(Run(Start, steps), id, now);
  }

  lemma AgedIsKept(s: State, id: nat, now: int)
    requires Aged(s)
    ensures KeptADay(s, id, now)
  {
  }

  // ---- how often an event may fail ----

  /** The retry count of a row is the number of committed rounds in which its emit threw; a dead letter's
      emit threw in four. */
  ghost predicate Counted(s: State) {
    && (forall id | id in s.failures :: id in s.saved)
    && (forall id | id in s.tables.outbox :: s.tables.outbox[id].retryCount == Failures(s, id))
    && (forall i | 0 <= i < |s.tables.dlq| :: Failures(s, s.tables.dlq[i].originalId) == 4)
  }

  lemma CommitCountsDead(s: State, w: nat, now: int, i: nat)
    requires Counted(s) && RetriesBounded(s.tables) && Enabled(s, Commit(w, now))
    requires forall id | id in s.workers[w].batch :: id !in DeadIds(s.tables.dlq)
    requires i < |Do(s, Commit(w, now)).tables.dlq|
    ensures Failures(Do(s, Commit(w, now)), Do(s, Commit(w, now)).tables.dlq[i].originalId) == 4
  {
    var k, dlq := s.workers[w], Do(s, Commit(w, now)).tables.dlq;
    if i < |s.tables.dlq| {
      assert dlq[i] == s.tables.dlq[i] && dlq[i].originalId in DeadIds(s.tables.dlq);
    } else {
      DeadLettersAreExhausted(s.tables.outbox, k.batch, k.threw);
      assert dlq[i] in DeadLetters(s.tables.outbox, k.batch, k.threw);
    }
  }

  lemma CommitCountsRows(s: State, w: nat, now: int)
    requires Counted(s) && Enabled(s, Commit(w, now))
    requires forall id | id in s.workers[w].batch :: id in s.saved
    ensures var s' := Do(s, Commit(w, now));
            && (forall id | id in s'.failures :: id in s'.saved)
            && (forall id | id in s'.tables.outbox :: s'.tables.outbox[id].retryCount == Failures(s', id))
  {
  }

  lemma CommitKeepsCounted(s: State, w: nat, now: int)
    requires Inv(s) && Counted(s) && Enabled(s, Commit(w, now))
    ensures Counted(Do(s, Commit(w, now)))
  {
    forall id | id in s.workers[w].batch ensures id in s.saved && id !in DeadIds(s.tables.dlq) {
      HeldRows(s, w, id);
    }
    CommitCountsRows(s, w, now);
    forall i | 0 <= i < |Do(s, Commit(w, now)).tables.dlq|
      ensures Failures(Do(s, Commit(w, now)), Do(s, Commit(w, now)).tables.dlq[i].originalId) == 4
    {
      CommitCountsDead(s, w, now, i);
    }
  }

  lemma StepKeepsCounted(s: State, step: Step)
    requires Inv(s) && Counted(s) && Enabled(s, step)
    ensures Counted(Do(s, step))
  {
    if step.Commit? {
      CommitKeepsCounted(s, step.w, step.now);
    } else {
      OtherStepsKeepCounted(s, step);
    }
  }

  lemma OtherStepsKeepCounted(s: State, step: Step)
    requires Counted(s) && Enabled(s, step) && !step.Commit?
    ensures Counted(Do(s, step))
  {
  }

  lemma {:induction false} RunKeepsCounted(s: State, steps: seq<Step>)
    requires Inv(s) && Counted(s) && Valid(s, steps)
    ensures Inv(Run(s, steps)) && Counted(Run(s, steps))
    decreases |steps|
  {
    if steps != [] {
      StepKeepsInv(s, steps[0]);
      StepKeepsCounted(s, steps[0]);
      RunKeepsCounted(Do(s, steps[0]), steps[1..]);
    }
  }

  ghost predicate FailedOften(s: State, id: nat) {
    && (id in s.tables.outbox ==> s.tables.outbox[id].retryCount == Failures(s, id) <= 3)
    && ((exists i :: 0 <= i < |s.tables.dlq| && s.tables.dlq[i].originalId == id) ==> Failures(s, id) == 4)
  }

  /** In every interleaving an event survives three committed rounds in which its emit throws, and is a
      dead letter exactly after the fourth. */
  lemma DeadAfterFourFailures(steps: seq<Step>, id: nat)
    requires Valid(Start, steps) && id in Run(Start, steps).saved
    ensures FailedOften(Run(Start, steps), id)
    ensures id !in Run(Start, steps).cleaned ==>
              (Failures(Run(Start, steps), id) == 4 <==> id !in Run(Start, steps).tables.outbox)
  {
    RunKeepsCounted(Start, steps);
    CountedIsExact(Run(Start, steps), id);
  }

  lemma CountedIsExact(s: State, id: nat)
    requires Inv(s) && Counted(s) && id in s.saved
    ensures FailedOften(s, id)
    ensures id !in s.cleaned ==> (Failures(s, id) == 4 <==> id !in s.tables.outbox)
  {
  }

  // ---- undisturbed rounds ----

  lemma RunStep(s: State, step: Step, rest: seq<Step>)
    requires Enabled(s, step) && Valid(Do(s, step), rest)
    ensures Valid(s, [step] + rest) && Run(s, [step] + rest) == Run(Do(s, step), rest)
  {
    assert ([step] + rest)[1..] == rest;
  }

  /** What is left of a round when `k` events of the batch have been emitted. */
  function RestOfRound(w: nat, batch: seq<nat>, k: nat, threw: set<nat>, now: int): seq<Step>
    requires k <= |batch|
    decreases |batch| - k
  {
    if k == |batch| then [Commit(w, now)] + []
    else [Emit(w, batch[k] in threw)] + RestOfRound(w, batch, k + 1, threw, now)
  }

  ghost predicate RoundEnded(s: State, t: State, w: nat, batch: seq<nat>, threw: set<nat>, now: int) {
    && RoundTold(s.tables, t.tables, batch, threw, now) && !Busy(t, w)
    && (forall v | v != w :: Busy(t, v) <==> Busy(s, v))
    && t.sent == s.sent + (set id | id in batch && id !in threw)
    && t.saved == s.saved && t.cleaned == s.cleaned
  }

  lemma RoundCommits(s: State, w: nat, threw: set<nat>, now: int)
    requires Busy(s, w) && s.workers[w].done == |s.workers[w].batch|
    requires s.workers[w].threw == set id | id in s.workers[w].batch[..s.workers[w].done] && id in threw
    ensures var batch := s.workers[w].batch;
            && Valid(s, RestOfRound(w, batch, |batch|, threw, now))
            && var t := Run(s, RestOfRound(w, batch, |batch|, threw, now));
               && RoundTold(s.tables, t.tables, batch, threw, now) && !Busy(t, w)
               && (forall v | v != w :: Busy(t, v) <==> Busy(s, v))
               && t.sent == s.sent && t.saved == s.saved && t.cleaned == s.cleaned
  {
    var batch := s.workers[w].batch;
    assert batch[..|batch|] == batch;
    SettleTold(s.tables, batch, s.workers[w].threw, now);
    RunStep(s, Commit(w, now), []);
  }

  lemma {:induction false} RestOfRoundEnds(s: State, w: nat, k: nat, threw: set<nat>, now: int)
    requires Busy(s, w) && k == s.workers[w].done <= |s.workers[w].batch|
    requires s.workers[w].threw == set id | id in s.workers[w].batch[..k] && id in threw
    ensures var batch := s.workers[w].batch;
            && Valid(s, RestOfRound(w, batch, k, threw, now))
            && var t := Run(s, RestOfRound(w, batch, k, threw, now));
               && RoundTold(s.tables, t.tables, batch, threw, now) && !Busy(t, w)
               && (forall v | v != w :: Busy(t, v) <==> Busy(s, v))
               && t.sent == s.sent + (set id | id in batch[k..] && id !in threw)
               && t.saved == s.saved && t.cleaned == s.cleaned
    decreases |s.workers[w].batch| - k
  {
    var batch := s.workers[w].batch;
    if k == |batch| {
      RoundCommits(s, w, threw, now);
    } else {
      var step := Emit(w, batch[k] in threw);
      assert batch[..k + 1] == batch[..k] + [batch[k]] && batch[k..] == [batch[k]] + batch[k + 1..];
      RestOfRoundEnds(Do(s, step), w, k + 1, threw, now);
      RunStep(s, step, RestOfRound(w, batch, k + 1, threw, now));
    }
  }

  /** An idle worker can fetch any batch of the lowest unlocked rows, at most 50, emit it and commit,
      whichever emits throw: the round leaves each row as it should. */
  lemma UndisturbedRound(s: State, w: nat, batch: seq<nat>, threw: set<nat>, now: int)
    requires !Busy(s, w) && IsBatch(s.tables.outbox, Locked(s), 50, batch)
    ensures var round := [Fetch(w, batch)] + RestOfRound(w, batch, 0, threw, now);
            Valid(s, round) && RoundEnded(s, Run(s, round), w, batch, threw, now)
  {
    var s1 := Do(s, Fetch(w, batch));
    assert batch[..0] == [] && batch[0..] == batch;
    RestOfRoundEnds(s1, w, 0, threw, now);
    RunStep(s, Fetch(w, batch), RestOfRound(w, batch, 0, threw, now));
  }

  /** A worker that dies at any point of its round leaves the tables as they were and its rows free for
      others; writers and the cleanup are never kept waiting. */
  lemma NothingBlocks(s: State, w: nat, id: nat, e: Event, now: int)
    requires Inv(s)
    ensures Busy(s, w) ==>
              var t := Do(s, Abort(w));
              && t.tables == s.tables && t.sent == s.sent && !Busy(t, w)
              && (forall i | i in s.workers[w].batch :: i !in Locked(t))
              && (forall i | i in Locked(s) && i !in s.workers[w].batch :: i in Locked(t))
    ensures id !in s.saved ==>
              Enabled(s, Insert(id, e))
              && Do(s, Insert(id, e)).tables == Tables(s.tables.outbox[id := OutboxRow(e, None, 0, 3)], s.tables.dlq)
    ensures Enabled(s, CleanUp(now))
            && Do(s, CleanUp(now)).tables == Tables(Cleanup(s.tables.outbox, now), s.tables.dlq)
  {
    if Busy(s, w) {
      var t := Do(s, Abort(w));
      forall v, k | Busy(s, v) && v != w && k in s.workers[v].batch ensures k in Locked(t) && k !in s.workers[w].batch {
        var i :| 0 <= i < |s.workers[v].batch| && s.workers[v].batch[i] == k;
        assert t.workers[v] == s.workers[v];
      }
    }
  }
}
