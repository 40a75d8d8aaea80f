/** The outbox and dead-letter tables, the relay that drains them, and why the relay finishes. */
module Outbox {
  import opened Common

  // ---- events ----

  /** GeoJSON; the coordinates are opaque here. */
  datatype Geometry = Geometry(kind: string, coordinates: string)

  /** What a version row remembers of a feature. */
  datatype Snapshot = Snapshot(geometry: Geometry, properties: string, name: string)

  /** The payloads as the feature repository writes them: an update carries `newVersion` and no name. */
  datatype Payload =
    | FeatureCreated(featureId: string, snapshot: Snapshot, createdBy: string)
    | FeatureUpdated(featureId: string, newVersion: int, geometry: Geometry, properties: string, updatedBy: string)
    | FeatureDeleted(featureId: string, lastVersion: int, deletedBy: string)

  datatype Event = Event(payload: Payload, correlationId: string)

  // ---- tables ----

  datatype OutboxRow = OutboxRow(event: Event, publishedAt: Option<int>, retryCount: int, maxRetries: int)

  datatype DeadLetter = DeadLetter(originalId: nat, event: Event, retryCount: int)

  datatype Tables = Tables(outbox: map<nat, OutboxRow>, dlq: seq<DeadLetter>)

  const MAX_RETRIES := 3
  const BATCH_LIMIT := 50
  const DAY_MS := 86_400_000

  function NewRow(e: Event): OutboxRow {
    OutboxRow(e, None, 0, MAX_RETRIES)
  }

  function Unpublished(outbox: map<nat, OutboxRow>): set<nat> {
    set id | id in outbox && outbox[id].publishedAt.None?
  }

  /** `SELECT ... WHERE published_at IS NULL ORDER BY id ASC LIMIT n FOR UPDATE SKIP LOCKED` */
  ghost predicate IsBatch(outbox: map<nat, OutboxRow>, locked: set<nat>, limit: nat, batch: seq<nat>) {
    && |batch| <= limit
    && (forall i, j | 0 <= i < j < |batch| :: batch[i] < batch[j])
    && (forall i | 0 <= i < |batch| :: batch[i] in Unpublished(outbox) - locked)
    && (forall id | id in Unpublished(outbox) - locked ::
          id in batch || (|batch| == limit && forall i | 0 <= i < limit :: batch[i] < id))
  }

  function MarkPublished(outbox: map<nat, OutboxRow>, ids: seq<nat>, now: int): map<nat, OutboxRow> {
    map id | id in outbox :: if id in ids then outbox[id].(publishedAt := Some(now)) else outbox[id]
  }

  function MoveToDeadLetter(t: Tables, id: nat, row: OutboxRow): Tables {
    Tables(t.outbox - {id}, t.dlq + [DeadLetter(id, row.event, row.retryCount)])
  }

  function IncrementRetry(outbox: map<nat, OutboxRow>, id: nat): map<nat, OutboxRow> {
    if id !in outbox then outbox
    else outbox[id := outbox[id].(retryCount := outbox[id].retryCount + 1, publishedAt := None)]
  }

  function Cleanup(outbox: map<nat, OutboxRow>, now: int): map<nat, OutboxRow> {
    map id | id in outbox && !(outbox[id].publishedAt.Some? && outbox[id].publishedAt.value < now - DAY_MS) ::
      outbox[id]
  }

  // ---- what one committed round does to a batch ----

  predicate Exhausted(row: OutboxRow) {
    row.retryCount >= row.maxRetries
  }

  /** Dead letters of the failed, exhausted events of a batch, in batch order. */
  function DeadLetters(outbox: map<nat, OutboxRow>, batch: seq<nat>, threw: set<nat>): seq<DeadLetter> {
    if batch == [] then []
    else
      var id := batch[|batch| - 1];
      DeadLetters(outbox, batch[..|batch| - 1], threw)
      + if id in outbox && id in threw && Exhausted(outbox[id])
        then [DeadLetter(id, outbox[id].event, outbox[id].retryCount)] else []
  }

  /** Every row of the batch is published if its emit returned; otherwise it is dead-lettered once
      its retries are used up, and else counted and kept. */
  function Settle(t: Tables, batch: seq<nat>, threw: set<nat>, now: int): Tables {
    Tables(map id | id in t.outbox && !(id in batch && id in threw && Exhausted(t.outbox[id])) ::
             if id !in batch then t.outbox[id]
             else if id in threw then t.outbox[id].(retryCount := t.outbox[id].retryCount + 1, publishedAt := None)
             else t.outbox[id].(publishedAt := Some(now)),
           t.dlq + DeadLetters(t.outbox, batch, threw))
  }

  /** The emits of a batch, in order. */
  function Announce(outbox: map<nat, OutboxRow>, batch: seq<nat>): seq<(nat, Event)>
    requires forall id | id in batch :: id in outbox
  {
    seq(|batch|, i requires 0 <= i < |batch| => assert batch[i] in batch; (batch[i], outbox[batch[i]].event))
  }

  // ---- the services ----

  /** The in-process event bus: what it was asked to deliver, in order. */
  class EventEmitter {
    var emitted: seq<(nat, Event)>

    constructor ()
      ensures emitted == []
    {
      emitted := [];
    }

    method Emit(id: nat, e: Event)
      modifies this
      ensures emitted == old(emitted) + [(id, e)]
    {
      emitted := emitted + [(id, e)];
    }
  }

  class OutboxService {
    var tables: Tables
    var nextId: nat

    constructor ()
      ensures tables == Tables(map[], []) && nextId == 1
    {
      tables := Tables(map[], []);
      nextId := 1;
    }

    method PublishEvent(e: Event) returns (id: nat)
      modifies this
      ensures id == old(nextId) && nextId == id + 1
      ensures tables == Tables(old(tables).outbox[id := OutboxRow(e, None, 0, 3)], old(tables).dlq)
    {
      id := nextId;
      tables := tables.(outbox := tables.outbox[id := NewRow(e)]);
      nextId := nextId + 1;
    }

    method FetchUnpublished(limit: nat, locked: set<nat>) returns (batch: seq<nat>)
      ensures IsBatch(tables.outbox, locked, limit, batch)
      ensures |batch| <= limit && forall i, j | 0 <= i < j < |batch| :: batch[i] < batch[j]
      ensures forall i | 0 <= i < |batch| ::
                batch[i] in tables.outbox && tables.outbox[batch[i]].publishedAt == None && batch[i] !in locked
      ensures forall id | id in tables.outbox && tables.outbox[id].publishedAt == None && id !in locked ::
                id in batch || (|batch| == limit && forall i | 0 <= i < limit :: batch[i] < id)
    {
      var rest := Unpublished(tables.outbox) - locked;
      batch := [];
      while rest != {} && |batch| < limit
        invariant |batch| <= limit && rest <= Unpublished(tables.outbox) - locked
        invariant forall i, j | 0 <= i < j < |batch| :: batch[i] < batch[j]
        invariant forall i | 0 <= i < |batch| :: batch[i] in Unpublished(tables.outbox) - locked
        invariant forall id | id in Unpublished(tables.outbox) - locked :: id in batch <==> id !in rest
        invariant forall i, id | 0 <= i < |batch| && id in rest :: batch[i] < id
        decreases rest
      {
        var low := Least(rest);
        batch := batch + [low];
        rest := rest - {low};
      }
    }

    method MarkEventsPublished(ids: seq<nat>, now: int)
      modifies this`tables
      ensures tables == old(tables).(outbox := MarkPublished(old(tables).outbox, ids, now))
      ensures tables.outbox.Keys == old(tables).outbox.Keys
              && forall id | id in tables.outbox ::
                   tables.outbox[id] == if id in ids then old(tables).outbox[id].(publishedAt := Some(now))
                                        else old(tables).outbox[id]
    {
      if |ids| == 0 {
        assert MarkPublished(tables.outbox, ids, now) == tables.outbox;
        return;
      }
      tables := tables.(outbox := MarkPublished(tables.outbox, ids, now));
    }

    method DeadLetterEvent(id: nat, row: OutboxRow)
      modifies this`tables
      ensures tables == MoveToDeadLetter(old(tables), id, row)
      ensures tables == Tables(old(tables).outbox - {id}, old(tables).dlq + [DeadLetter(id, row.event, row.retryCount)])
    {
      tables := tables.(dlq := tables.dlq + [DeadLetter(id, row.event, row.retryCount)]);
      tables := tables.(outbox := tables.outbox - {id});
    }

    method CountRetry(id: nat)
      modifies this`tables
      ensures tables == old(tables).(outbox := IncrementRetry(old(tables).outbox, id))
      ensures id in old(tables).outbox ==>
                var row := old(tables).outbox[id];
                tables.outbox == old(tables).outbox[id := row.(retryCount := row.retryCount + 1, publishedAt := None)]
      ensures id !in old(tables).outbox ==> tables == old(tables)
    {
      tables := tables.(outbox := IncrementRetry(tables.outbox, id));
    }
  }

  method Least(s: set<nat>) returns (low: nat)
    requires s != {}
    ensures low in s && forall x | x in s :: low <= x
  {
    low :| low in s;
    var rest := s - {low};
    while rest != {}
      invariant rest <= s && low in s
      invariant forall x | x in s && x !in rest :: low <= x
      decreases rest
    {
      var x :| x in rest;
      low := if x < low then x else low;
      rest := rest - {x};
    }
  }

  /** The tables inside a round: failed events are settled at once, published ones still wait. */
  function Staged(t: Tables, done: seq<nat>, threw: set<nat>): Tables {
    Tables(map id | id in t.outbox && !(id in done && id in threw && Exhausted(t.outbox[id])) ::
             if id in done && id in threw
             then t.outbox[id].(retryCount := t.outbox[id].retryCount + 1, publishedAt := None)
             else t.outbox[id],
           t.dlq + DeadLetters(t.outbox, done, threw))
  }

  lemma StagedNext(t: Tables, done: seq<nat>, id: nat, threw: set<nat>)
    requires id in t.outbox && id !in done
    ensures var s := Staged(t, done, threw);
            Staged(t, done + [id], threw) ==
            if id !in threw then s
            else if Exhausted(t.outbox[id]) then MoveToDeadLetter(s, id, t.outbox[id])
            else s.(outbox := IncrementRetry(s.outbox, id))
  {
  }

  lemma AnnounceNext(outbox: map<nat, OutboxRow>, batch: seq<nat>, n: nat)
    requires n < |batch| && forall id | id in batch :: id in outbox
    ensures batch[..n + 1] == batch[..n] + [batch[n]]
    ensures Announce(outbox, batch[..n + 1]) == Announce(outbox, batch[..n]) + [(batch[n], outbox[batch[n]].event)]
  {
  }

  lemma StagedThenMarked(t: Tables, batch: seq<nat>, threw: set<nat>, published: seq<nat>, now: int)
    requires forall id :: id in published <==> id in batch && id !in threw
    ensures var s := Staged(t, batch, threw);
            s.(outbox := MarkPublished(s.outbox, published, now)) == Settle(t, batch, threw, now)
  {
  }

  /** What a committed round leaves of each row, and that it only appends dead letters. */
  ghost predicate RoundTold(t: Tables, u: Tables, batch: seq<nat>, threw: set<nat>, now: int) {
    && t.dlq <= u.dlq
    && (forall id | id in t.outbox :: RowTold(t.outbox[id], id, u, id in batch, id in threw, now))
    && (forall id | id in u.outbox :: id in t.outbox)
    && (forall i | |t.dlq| <= i < |u.dlq| ::
          var id := u.dlq[i].originalId;
          id in batch && id in threw && id in t.outbox && t.outbox[id].retryCount >= t.outbox[id].maxRetries)
  }

  /** A row of the batch is published at `now` if its emit returned; otherwise its retries are counted, or,
      when they are used up, it is now a dead letter. Any other row is as it was. */
  ghost predicate RowTold(row: OutboxRow, id: nat, u: Tables, fetched: bool, threw: bool, now: int) {
    if fetched && threw && row.retryCount >= row.maxRetries
    then id !in u.outbox && DeadLetter(id, row.event, row.retryCount) in u.dlq
    else
      && id in u.outbox
      && u.outbox[id] == if !fetched then row
                         else if threw then row.(retryCount := row.retryCount + 1, publishedAt := None)
                         else row.(publishedAt := Some(now))
  }

  lemma {:induction false} SettleTold(t: Tables, batch: seq<nat>, threw: set<nat>, now: int)
    ensures RoundTold(t, Settle(t, batch, threw, now), batch, threw, now)
  {
    var u, more := Settle(t, batch, threw, now), DeadLetters(t.outbox, batch, threw);
    DeadLettersAreExhausted(t.outbox, batch, threw);
    forall i | |t.dlq| <= i < |u.dlq| ensures u.dlq[i] in more {
      assert u.dlq[i] == more[i - |t.dlq|];
    }
    forall d | d in more ensures d in u.dlq {
    }
  }

  class OutboxRelayService {
    const outboxService: OutboxService
    const eventEmitter: EventEmitter
    var isRelaying: bool

    constructor (outboxService: OutboxService, eventEmitter: EventEmitter)
      ensures this.outboxService == outboxService && this.eventEmitter == eventEmitter && !isRelaying
    {
      this.outboxService := outboxService;
      this.eventEmitter := eventEmitter;
      isRelaying := false;
    }

    /** One poll. `locked` are the rows other workers hold, `threw` the events whose emit throws, and
        `dies` the number of events handled before the transaction is lost, if it is: everything
        written is rolled back then, but what was emitted stays emitted. */
    method RelayEvents(locked: set<nat>, threw: set<nat>, dies: Option<nat>, now: int) returns (ghost batch: seq<nat>)
      modifies this, outboxService`tables, eventEmitter
      ensures isRelaying == old(isRelaying)
      ensures old(isRelaying) ==> outboxService.tables == old(outboxService.tables)
                                  && eventEmitter.emitted == old(eventEmitter.emitted)
      ensures !old(isRelaying) ==>
                var t := old(outboxService.tables);
                var lost := dies.Some? && dies.value <= |batch|;
                && IsBatch(t.outbox, locked, 50, batch)
                && (!lost ==> RoundTold(t, outboxService.tables, batch, threw, now))
                && outboxService.tables == (if lost then t else Settle(t, batch, threw, now))
                && (forall id | id in batch :: id in t.outbox)
                && eventEmitter.emitted
                   == old(eventEmitter.emitted) + Announce(t.outbox, if lost then batch[..dies.value] else batch)
    {
      batch := [];
      if isRelaying {
        return;
      }
      isRelaying := true;
      var begin := outboxService.tables;
      var events := outboxService.FetchUnpublished(BATCH_LIMIT, locked);
      batch := events;
      var publishedIds := [];
      var failedIds := [];
      for n := 0 to |events|
        invariant isRelaying && (dies.Some? && dies.value < |events| ==> n <= dies.value)
        invariant outboxService.tables == Staged(begin, events[..n], threw)
        invariant forall id :: id in publishedIds <==> id in events[..n] && id !in threw
        invariant eventEmitter.emitted == old(eventEmitter.emitted) + Announce(begin.outbox, events[..n])
      {
        var id := events[n];
        if dies == Some(n) {
          outboxService.tables := begin;
          isRelaying := false;
          return;
        }
        var row := begin.outbox[id];
        StagedNext(begin, events[..n], id, threw);
        AnnounceNext(begin.outbox, events, n);
        eventEmitter.Emit(id, row.event);
        if id !in threw {
          publishedIds := publishedIds + [id];
        } else if row.retryCount >= row.maxRetries {
          outboxService.DeadLetterEvent(id, row);
        } else {
          outboxService.CountRetry(id);
          failedIds := failedIds + [id];
        }
      }
      assert events[..|events|] == events;
      StagedThenMarked(begin, events, threw, publishedIds, now);
      SettleTold(begin, events, threw, now);
      if |publishedIds| > 0 {
        outboxService.MarkEventsPublished(publishedIds, now);
      } else {
        assert MarkPublished(outboxService.tables.outbox, publishedIds, now) == outboxService.tables.outbox;
      }
      if dies == Some(|events|) {
        outboxService.tables := begin;
      }
      isRelaying := false;
    }

    method CleanupPublishedEvents(now: int)
      modifies outboxService`tables
      ensures outboxService.tables
           == old(outboxService.tables).(outbox := Cleanup(old(outboxService.tables).outbox, now))
      ensures forall id :: id in outboxService.tables.outbox <==>
                && id in old(outboxService.tables).outbox
                && var p := old(outboxService.tables).outbox[id].publishedAt;
                   p.Some? ==> p.value >= now - 24 * 60 * 60 * 1000
      ensures forall id | id in outboxService.tables.outbox ::
                outboxService.tables.outbox[id] == old(outboxService.tables).outbox[id]
    {
      outboxService.tables := outboxService.tables.(outbox := Cleanup(outboxService.tables.outbox, now));
    }
  }

  // ---- one worker drains the outbox ----

  ghost function Sum(m: map<nat, nat>): nat
    decreases |m|
  {
    if m == map[] then 0
    else
      var k :| k in m;
      m[k] + Sum(m - {k})
  }

  lemma {:induction false} SumSplits(m: map<nat, nat>, k: nat)
    requires k in m
    ensures Sum(m) == m[k] + Sum(m - {k})
    decreases |m|
  {
    var j :| j in m && Sum(m) == m[j] + Sum(m - {j});
    if j != k {
      SumSplits(m - {j}, k);
      SumSplits(m - {k}, j);
      assert m - {j} - {k} == m - {k} - {j};
    }
  }

  lemma {:induction false} SumGrows(small: map<nat, nat>, big: map<nat, nat>)
    requires small.Keys <= big.Keys && forall k | k in small :: small[k] <= big[k]
    ensures Sum(small) <= Sum(big)
    decreases |big|
  {
    if big != map[] {
      var k :| k in big;
      SumSplits(big, k);
      if k in small {
        SumSplits(small, k);
        SumGrows(small - {k}, big - {k});
      } else {
        SumGrows(small, big - {k});
      }
    } else {
      assert small == map[];
    }
  }

  lemma SumGrowsStrictly(small: map<nat, nat>, big: map<nat, nat>, k: nat)
    requires small.Keys <= big.Keys && forall j | j in small :: small[j] <= big[j]
    requires k in big && (if k in small then small[k] < big[k] else big[k] > 0)
    ensures Sum(small) < Sum(big)
  {
    SumSplits(big, k);
    if k in small {
      SumSplits(small, k);
      SumGrows(small - {k}, big - {k});
    } else {
      SumGrows(small, big - {k});
    }
  }

  /** Retries are within bounds: an unpublished row has been retried at most `maxRetries` times. */
  predicate RetriesBounded(t: Tables) {
    && (forall id | id in t.outbox :: 0 <= t.outbox[id].retryCount <= t.outbox[id].maxRetries == MAX_RETRIES)
    && (forall i | 0 <= i < |t.dlq| :: t.dlq[i].retryCount == MAX_RETRIES)
  }

  function Attempts(outbox: map<nat, OutboxRow>): map<nat, nat> {
    map id | id in outbox && outbox[id].publishedAt.None? ::
      if outbox[id].retryCount <= outbox[id].maxRetries then outbox[id].maxRetries - outbox[id].retryCount + 1 else 0
  }

  /** The emits still owed: one more than the retries left, over all unpublished rows. */
  ghost function Owed(t: Tables): nat {
    Sum(Attempts(t.outbox))
  }

  lemma {:induction false} DeadLettersAreExhausted(outbox: map<nat, OutboxRow>, batch: seq<nat>, threw: set<nat>)
    ensures forall d | d in DeadLetters(outbox, batch, threw) ::
              && d.originalId in batch && d.originalId in threw
              && d.originalId in outbox && Exhausted(outbox[d.originalId])
              && d == DeadLetter(d.originalId, outbox[d.originalId].event, outbox[d.originalId].retryCount)
    ensures forall id | id in batch && id in threw && id in outbox && Exhausted(outbox[id]) ::
              DeadLetter(id, outbox[id].event, outbox[id].retryCount) in DeadLetters(outbox, batch, threw)
  {
    if batch != [] {
      DeadLettersAreExhausted(outbox, batch[..|batch| - 1], threw);
      assert batch == batch[..|batch| - 1] + [batch[|batch| - 1]];
    }
  }

  lemma SettleKeepsBounds(t: Tables, batch: seq<nat>, threw: set<nat>, now: int)
    requires RetriesBounded(t)
    ensures RetriesBounded(Settle(t, batch, threw, now))
  {
    DeadLettersAreExhausted(t.outbox, batch, threw);
    var u := Settle(t, batch, threw, now);
    forall i | 0 <= i < |u.dlq| ensures u.dlq[i].retryCount == MAX_RETRIES {
      if i >= |t.dlq| {
        assert u.dlq[i] in DeadLetters(t.outbox, batch, threw);
      }
    }
  }

  /** A committed, non-empty round strictly lowers what is owed, whichever emits threw. */
  lemma RoundLowersOwed(t: Tables, locked: set<nat>, batch: seq<nat>, threw: set<nat>, now: int)
    requires RetriesBounded(t) && IsBatch(t.outbox, locked, BATCH_LIMIT, batch) && batch != []
    ensures Owed(Settle(t, batch, threw, now)) < Owed(t)
  {
    var u := Settle(t, batch, threw, now);
    assert batch[0] in batch && batch[0] in Unpublished(t.outbox);
    SumGrowsStrictly(Attempts(u.outbox), Attempts(t.outbox), batch[0]);
  }

  /** Consecutive committed rounds of a single worker with no new events. */
  ghost predicate Drain(ts: seq<Tables>) {
    |ts| > 0 && forall i | 0 <= i < |ts| - 1 :: DrainStep(ts[i], ts[i + 1])
  }

  ghost predicate DrainStep(t: Tables, u: Tables) {
    exists batch, threw, now :: IsBatch(t.outbox, {}, BATCH_LIMIT, batch) && u == Settle(t, batch, threw, now)
  }

  lemma EmptyBatchMeansDrained(t: Tables, batch: seq<nat>)
    requires IsBatch(t.outbox, {}, BATCH_LIMIT, batch) && batch == []
    ensures Unpublished(t.outbox) == {}
  {
    if id :| id in Unpublished(t.outbox) {
      assert id in Unpublished(t.outbox) - {};
    }
  }

  /** As many rounds as emits are owed empty the outbox, whatever fails on the way; every event is
      by then published or in the dead-letter table with all its retries spent. */
  lemma {:induction false} RelayDrains(ts: seq<Tables>)
    requires Drain(ts) && RetriesBounded(ts[0]) && |ts| > Owed(ts[0])
    ensures Unpublished(ts[|ts| - 1].outbox) == {} && RetriesBounded(ts[|ts| - 1])
    decreases |ts|
  {
    if |ts| == 1 {
      NothingOwed(ts[0]);
    } else {
      assert DrainStep(ts[0], ts[1]);
      var batch, threw, now :|
        IsBatch(ts[0].outbox, {}, BATCH_LIMIT, batch) && ts[1] == Settle(ts[0], batch, threw, now);
      SettleKeepsBounds(ts[0], batch, threw, now);
      if batch == [] {
        EmptyBatchMeansDrained(ts[0], batch);
        assert Attempts(ts[1].outbox) == map[];
      } else {
        RoundLowersOwed(ts[0], {}, batch, threw, now);
      }
      forall i | 0 <= i < |ts[1..]| - 1 ensures DrainStep(ts[1..][i], ts[1..][i + 1]) {
        assert DrainStep(ts[i + 1], ts[i + 1 + 1]);
      }
      RelayDrains(ts[1..]);
    }
  }

  lemma NothingOwed(t: Tables)
    requires RetriesBounded(t) && Owed(t) == 0
    ensures Unpublished(t.outbox) == {}
  {
  }

  // ---- the life of one event ----

  /** A committed round that fetched event `id` and whose emit of it threw. */
  ghost predicate FailsIn(t: Tables, u: Tables, id: nat) {
    exists locked, batch, threw, now ::
      && IsBatch(t.outbox, locked, BATCH_LIMIT, batch) && id in batch && id in threw
      && u == Settle(t, batch, threw, now)
  }

  ghost predicate FailingRounds(ts: seq<Tables>, id: nat) {
    |ts| > 0 && forall i | 0 <= i < |ts| - 1 :: FailsIn(ts[i], ts[i + 1], id)
  }

  lemma OneFailure(t: Tables, u: Tables, id: nat)
    requires FailsIn(t, u, id) && RetriesBounded(t)
    ensures RetriesBounded(u) && id in t.outbox
    ensures var row := t.outbox[id];
            if row.retryCount < MAX_RETRIES
            then id in u.outbox && u.outbox[id] == row.(retryCount := row.retryCount + 1)
            else id !in u.outbox && DeadLetter(id, row.event, MAX_RETRIES) in u.dlq
  {
    var locked, batch, threw, now :|
      && IsBatch(t.outbox, locked, BATCH_LIMIT, batch) && id in batch && id in threw
      && u == Settle(t, batch, threw, now);
    assert id in Unpublished(t.outbox);
    SettleKeepsBounds(t, batch, threw, now);
    DeadLettersAreExhausted(t.outbox, batch, threw);
  }

  /** An event whose every emit throws is counted up round by round and, in the round after its retries
      are used up and in no other, moves to the dead letters; it is never fetched again. */
  lemma {:induction false} FailingEventIsBuriedExactly(ts: seq<Tables>, id: nat)
    requires FailingRounds(ts, id) && RetriesBounded(ts[0]) && id in ts[0].outbox
    ensures var row, last, rounds := ts[0].outbox[id], ts[|ts| - 1], |ts| - 1;
            var left := MAX_RETRIES - row.retryCount;
            && rounds <= left + 1
            && (rounds <= left ==> id in last.outbox && last.outbox[id] == row.(retryCount := row.retryCount + rounds))
            && (rounds == left + 1 ==> id !in last.outbox && DeadLetter(id, row.event, MAX_RETRIES) in last.dlq)
    decreases |ts|
  {
    if |ts| > 1 {
      assert FailsIn(ts[0], ts[0 + 1], id);
      OneFailure(ts[0], ts[1], id);
      var rest := ts[1..];
      forall i | 0 <= i < |rest| - 1 ensures FailsIn(rest[i], rest[i + 1], id) {
        assert FailsIn(ts[i + 1], ts[i + 1 + 1], id);
      }
      if id in ts[1].outbox {
        FailingEventIsBuriedExactly(rest, id);
      } else if |rest| > 1 {
        assert FailsIn(rest[0], rest[0 + 1], id);
        OneFailure(rest[0], rest[1], id);
        assert false;
      }
    }
  }
}
