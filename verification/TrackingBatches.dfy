/** Bulk inserts of tracking points from a Kafka partition, with crashes and redelivery. */
module TrackingBatches {
  import opened Common

  /** Device id and instant, the key of `location_history`, as values of the types uuid (a number of 128
      bits) and timestamptz (microseconds). Different spellings of one value are one key. */
  type Key = (nat, int)

  datatype Point = Point(lng: real, lat: real, speed: real)

  /** A message's value: absent, unusable (it does not parse, or the database cannot cast a field), or a
      location with an optional speed, its key fields as the database casts them. */
  datatype Value =
    | Missing
    | Malformed
    | Location(deviceId: nat, timestamp: int, lng: real, lat: real, speed: Option<real>)

  type Table = map<Key, Point>

  function PointOf(v: Value): Point
    requires v.Location?
  {
    Point(v.lng, v.lat, if v.speed.Some? then v.speed.value else 0.0)
  }

  /** ON CONFLICT (device_id, time) DO NOTHING */
  function InsertOrIgnore(t: Table, k: Key, p: Point): Table {
    if k in t then t else t[k := p]
  }

  /** The first point per key wins; messages without a location add nothing. */
  function Ingest(t: Table, log: seq<Value>): Table
    decreases |log|
  {
    if log == [] then t
    else
      var n := |log| - 1;
      var t1 := Ingest(t, log[..n]);
      if log[n].Location? then InsertOrIgnore(t1, (log[n].deviceId, log[n].timestamp), PointOf(log[n])) else t1
  }

  predicate Parses(log: seq<Value>) {
    forall i | 0 <= i < |log| :: !log[i].Malformed?
  }

  /** Message `i` is the first of the log with its device and instant. */
  predicate FirstOfKey(log: seq<Value>, i: int) {
    && 0 <= i < |log| && log[i].Location?
    && forall j | 0 <= j < i && log[j].Location? ::
         log[j].deviceId != log[i].deviceId || log[j].timestamp != log[i].timestamp
  }

  /** What one pass leaves under a key: what was there, and else the longitude, the latitude and the speed
      (0 if it has none) of the first message that carries it. */
  lemma {:induction false} FirstPointWins(t: Table, log: seq<Value>, i: nat)
    requires FirstOfKey(log, i)
    ensures var k, u := (log[i].deviceId, log[i].timestamp), Ingest(t, log);
            && k in u
            && u[k] == if k in t then t[k]
                       else Point(log[i].lng, log[i].lat, if log[i].speed.Some? then log[i].speed.value else 0.0)
    decreases |log|
  {
    var n := |log| - 1;
    if i < n {
      FirstPointWins(t, log[..n], i);
    } else {
      IngestKeys(t, log[..n], (log[i].deviceId, log[i].timestamp));
    }
  }

  lemma {:induction false} IngestKeys(t: Table, log: seq<Value>, k: Key)
    ensures k in Ingest(t, log) <==>
            k in t || exists i | 0 <= i < |log| :: log[i].Location? && (log[i].deviceId, log[i].timestamp) == k
    ensures k in t ==> Ingest(t, log)[k] == t[k]
    decreases |log|
  {
    if log != [] {
      var n := |log| - 1;
      IngestKeys(t, log[..n], k);
      if log[n].Location? && (log[n].deviceId, log[n].timestamp) == k {
      } else if i :| 0 <= i < |log| && log[i].Location? && (log[i].deviceId, log[i].timestamp) == k {
        assert log[..n][i] == log[i];
      }
    }
  }

  class TrackingBatchProcessor {
    var history: Table

    /** `resolved` is the index in the batch whose offset is resolved, if the call gets that far. */
    method ProcessBatch(messages: seq<Value>) returns (resolved: Option<nat>)
      modifies this
      ensures resolved == if messages != [] && Parses(messages) then Some(|messages| - 1) else None
      ensures history == if Parses(messages) then Ingest(old(history), messages) else old(history)
      ensures (forall i | 0 <= i < |messages| :: !messages[i].Malformed?) ==>
                forall i | FirstOfKey(messages, i) ::
                  var m, k := messages[i], (messages[i].deviceId, messages[i].timestamp);
                  k in history && (k !in old(history) ==>
                    history[k] == Point(m.lng, m.lat, if m.speed.Some? then m.speed.value else 0.0))
    {
      if |messages| == 0 {
        return None;
      }
      var deviceIds: seq<nat> := [];
      var timestamps: seq<int> := [];
      var points: seq<Point> := [];
      for i := 0 to |messages|
        invariant Parses(messages[..i])
        invariant |deviceIds| == |timestamps| == |points|
        invariant InsertRows(history, deviceIds, timestamps, points) == Ingest(history, messages[..i])
      {
        assert messages[..i + 1][..i] == messages[..i];
        match messages[i] {
          case Missing =>
          case Malformed => return None;
          case Location(d, time, lng, lat, speed) =>
            ghost var ds, ts, ps := deviceIds, timestamps, points;
            deviceIds := deviceIds + [d];
            timestamps := timestamps + [time];
            points := points + [Point(lng, lat, if speed.Some? then speed.value else 0.0)];
            assert deviceIds[..|ds|] == ds && timestamps[..|ds|] == ts && points[..|ds|] == ps;
        }
      }
      assert messages[..|messages|] == messages;
      forall i | FirstOfKey(messages, i)
        ensures var m, k, u := messages[i], (messages[i].deviceId, messages[i].timestamp), Ingest(history, messages);
                k in u && (k !in history ==>
                  u[k] == Point(m.lng, m.lat, if m.speed.Some? then m.speed.value else 0.0))
      {
        FirstPointWins(history, messages, i);
      }
      history := InsertRows(history, deviceIds, timestamps, points);
      resolved := Some(|messages| - 1);
    }
  }

  /** INSERT ... SELECT FROM UNNEST of the parallel arrays */
  function InsertRows(t: Table, ds: seq<nat>, ts: seq<int>, ps: seq<Point>): Table
    requires |ds| == |ts| == |ps|
    decreases |ds|
  {
    if ds == [] then t
    else
      var n := |ds| - 1;
      InsertOrIgnore(InsertRows(t, ds[..n], ts[..n], ps[..n]), (ds[n], ts[n]), ps[n])
  }

  // ---- what ingesting twice adds ----

  lemma {:induction false} IngestAppends(t: Table, a: seq<Value>, b: seq<Value>)
    ensures Ingest(t, a + b) == Ingest(Ingest(t, a), b)
    decreases |b|
  {
    if b == [] {
      assert a + b == a;
    } else {
      var n := |b| - 1;
      assert (a + b)[..|a + b| - 1] == a + b[..n];
      IngestAppends(t, a, b[..n]);
    }
  }

  ghost predicate Covers(t: Table, log: seq<Value>) {
    forall i | 0 <= i < |log| && log[i].Location? :: (log[i].deviceId, log[i].timestamp) in t
  }

  lemma {:induction false} IngestCovers(t: Table, log: seq<Value>)
    ensures Covers(Ingest(t, log), log)
    ensures forall k | k in t :: k in Ingest(t, log) && Ingest(t, log)[k] == t[k]
    decreases |log|
  {
    if log != [] {
      IngestCovers(t, log[..|log| - 1]);
    }
  }

  lemma {:induction false} CoveredAddsNothing(t: Table, log: seq<Value>)
    requires Covers(t, log)
    ensures Ingest(t, log) == t
    decreases |log|
  {
    if log != [] {
      var n := |log| - 1;
      assert forall i | 0 <= i < n :: log[..n][i] == log[i];
      CoveredAddsNothing(t, log[..n]);
    }
  }

  function Max(a: nat, b: nat): nat {
    if a < b then b else a
  }

  /** Redelivering any stretch that starts inside what was already ingested, with any boundaries, is
      the same as ingesting the log once, up to the furthest point reached. */
  lemma RedeliveryIsInvisible(log: seq<Value>, high: nat, from: nat, to: nat)
    requires from <= high <= |log| && from <= to <= |log|
    ensures Ingest(Ingest(map[], log[..high]), log[from..to]) == Ingest(map[], log[..Max(high, to)])
  {
    var t := Ingest(map[], log[..high]);
    var mid := if to < high then to else high;
    IngestCovers(map[], log[..high]);
    assert forall i | 0 <= i < mid - from :: log[from..mid][i] == log[..high][from + i];
    CoveredAddsNothing(t, log[from..mid]);
    assert log[from..to] == log[from..mid] + log[mid..to];
    IngestAppends(t, log[from..mid], log[mid..to]);
    if to > high {
      assert log[..to] == log[..high] + log[high..to];
      IngestAppends(map[], log[..high], log[high..to]);
    } else {
      assert log[mid..to] == [];
    }
  }

  // ---- runs of any number of consumers over one partition ----

  /** `position` is where each consumer fetches next; `pending` an offset it has resolved but not yet
      committed. A consumer that lost its partition may still be at work. */
  datatype Consumer = Consumer(position: nat, pending: nat)

  datatype State = State(table: Table, committed: nat, consumers: map<nat, Consumer>)

  datatype Step =
    | Join(c: nat)                  // start, restart after a crash or rebalance: resume at the committed offset
    | Batch(c: nat, to: nat)        // fetch up to `to`, insert, resolve
    | Refused(c: nat, to: nat)      // a value does not parse: nothing is inserted, the call throws
    | CommitOffset(c: nat)

  predicate Enabled(log: seq<Value>, s: State, step: Step) {
    match step
    case Join(_) => true
    case Batch(c, to) =>
      c in s.consumers && s.consumers[c].position <= to <= |log| && Parses(log[s.consumers[c].position..to])
    case Refused(c, to) =>
      c in s.consumers && s.consumers[c].position <= to <= |log| && !Parses(log[s.consumers[c].position..to])
    case CommitOffset(c) => c in s.consumers
  }

  function Do(log: seq<Value>, s: State, step: Step): State
    requires Enabled(log, s, step)
  {
    match step
    case Join(c) => s.(consumers := s.consumers[c := Consumer(s.committed, s.committed)])
    case Batch(c, to) =>
      State(Ingest(s.table, log[s.consumers[c].position..to]), s.committed, s.consumers[c := Consumer(to, to)])
    case Refused(_, _) => s
    case CommitOffset(c) => s.(committed := s.consumers[c].pending)
  }

  /** `high` is how far the log has been ingested. */
  ghost predicate InvAt(log: seq<Value>, s: State, high: nat) {
    && high <= |log| && Parses(log[..high]) && s.table == Ingest(map[], log[..high])
    && s.committed <= high
    && forall c | c in s.consumers :: s.consumers[c].position <= high && s.consumers[c].pending <= high
  }

  lemma StepKeepsInv(log: seq<Value>, s: State, step: Step, high: nat) returns (high': nat)
    requires InvAt(log, s, high) && Enabled(log, s, step)
    ensures high <= high' && InvAt(log, Do(log, s, step), high')
  {
    high' := high;
    if step.Batch? {
      var from := s.consumers[step.c].position;
      high' := Max(high, step.to);
      RedeliveryIsInvisible(log, high, from, step.to);
      forall i | 0 <= i < high' ensures !log[..high'][i].Malformed? {
        if i >= high {
          assert log[i] == log[from..step.to][i - from];
        } else {
          assert log[i] == log[..high][i];
        }
      }
    }
  }

  predicate Valid(log: seq<Value>, s: State, steps: seq<Step>)
    decreases |steps|
  {
    steps == [] || (Enabled(log, s, steps[0]) && Valid(log, Do(log, s, steps[0]), steps[1..]))
  }

  function Run(log: seq<Value>, s: State, steps: seq<Step>): State
    requires Valid(log, s, steps)
    decreases |steps|
  {
    if steps == [] then s else Run(log, Do(log, s, steps[0]), steps[1..])
  }

  const Start := State(map[], 0, map[])

  lemma {:induction false} RunKeepsInv(log: seq<Value>, s: State, steps: seq<Step>, high: nat) returns (high': nat)
    requires InvAt(log, s, high) && Valid(log, s, steps)
    ensures high <= high' && InvAt(log, Run(log, s, steps), high')
    decreases |steps|
  {
    if steps == [] {
      high' := high;
    } else {
      high' := StepKeepsInv(log, s, steps[0], high);
      high' := RunKeepsInv(log, Do(log, s, steps[0]), steps[1..], high');
    }
  }

  /** After any schedule of batches, crashes, redeliveries and offset commits, the table is what one
      pass over some prefix of the log leaves, first point per key; the prefix covers the committed
      offset and contains no malformed value, so a malformed value is never skipped. */
  lemma TableIsOnePassOverPrefix(log: seq<Value>, steps: seq<Step>)
    requires Valid(log, Start, steps)
    ensures var s := Run(log, Start, steps);
            exists high: nat | high <= |log| ::
              s.table == Ingest(map[], log[..high]) && s.committed <= high && Parses(log[..high])
  {
    assert log[..0] == [];
    var high := RunKeepsInv(log, Start, steps, 0);
  }

  /** A stretch that a consumer can fetch is ingested and resolved if all of it parses, and refused without
      a trace if not. */
  lemma FetchEndsExactly(log: seq<Value>, s: State, c: nat, to: nat)
    requires c in s.consumers && s.consumers[c].position <= to <= |log|
    ensures var stretch := log[s.consumers[c].position..to];
            && (Enabled(log, s, Batch(c, to)) <==> forall i | 0 <= i < |stretch| :: !stretch[i].Malformed?)
            && (Enabled(log, s, Refused(c, to)) <==> exists i | 0 <= i < |stretch| :: stretch[i].Malformed?)
            && (Enabled(log, s, Refused(c, to)) ==> Do(log, s, Refused(c, to)) == s)
  {
  }

  /** Nothing is ever lost for good: whatever crashes and redeliveries came before, any consumer that
      starts afresh, fetches the rest of a log that parses and commits leaves the whole log ingested, first
      point per key, and its end committed. */
  lemma FreshConsumerFinishes(log: seq<Value>, steps: seq<Step>, c: nat)
    requires Parses(log) && Valid(log, Start, steps)
    ensures var s, finish := Run(log, Start, steps), [Join(c), Batch(c, |log|), CommitOffset(c)];
            && Valid(log, s, finish)
            && Run(log, s, finish).table == Ingest(map[], log) && Run(log, s, finish).committed == |log|
  {
    assert log[..0] == [];
    var high := RunKeepsInv(log, Start, steps, 0);
    FinishesFrom(log, Run(log, Start, steps), high, c);
  }

  lemma FinishesFrom(log: seq<Value>, s: State, high: nat, c: nat)
    requires Parses(log) && InvAt(log, s, high)
    ensures var finish := [Join(c), Batch(c, |log|), CommitOffset(c)];
            && Valid(log, s, finish)
            && Run(log, s, finish).table == Ingest(map[], log) && Run(log, s, finish).committed == |log|
  {
    var s1 := Do(log, s, Join(c));
    assert forall i | 0 <= i < |log[s.committed..]| :: log[s.committed..][i] == log[s.committed + i];
    var s2 := Do(log, s1, Batch(c, |log|));
    RedeliveryIsInvisible(log, high, s.committed, |log|);
    assert log[..|log|] == log && log[s.committed..|log|] == log[s.committed..];
    var s3 := Do(log, s2, CommitOffset(c));
    assert Valid(log, s3, []) && Run(log, s3, []) == s3;
    assert [CommitOffset(c)][1..] == [];
    assert Valid(log, s2, [CommitOffset(c)]) && Run(log, s2, [CommitOffset(c)]) == s3;
    assert [Batch(c, |log|), CommitOffset(c)][1..] == [CommitOffset(c)];
    assert [Join(c), Batch(c, |log|), CommitOffset(c)][1..] == [Batch(c, |log|), CommitOffset(c)];
  }
}
