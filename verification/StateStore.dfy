/** Latest device positions in Redis: a timestamp-guarded upsert and a geo index beside it. */
module StateStore {
  datatype Position = Position(lon: real, lat: real)

  datatype Message = Message(id: string, ts: int, pos: Position, payload: string)

  datatype Entry = Entry(ts: int, payload: string)

  /** The `device:<id>` hashes and the members of the `region:<r>:geoset` indexes. */
  datatype Store = Store(devices: map<string, Entry>, geo: map<(string, string), Position>)

  /** GEOADD accepts these; beyond them it raises an error. */
  predicate Indexable(p: Position) {
    -180.0 <= p.lon <= 180.0 && -85.05112878 <= p.lat <= 85.05112878
  }

  /** The Lua script: a missing timestamp counts as 0, and an equal one is overwritten. The hash is
      written first, and an error of GEOADD does not undo it. */
  function Upsert(s: Store, region: string, m: Message): Store {
    var current := if m.id in s.devices then s.devices[m.id].ts else 0;
    if m.ts < current then s
    else
      var s1 := s.(devices := s.devices[m.id := Entry(m.ts, m.payload)]);
      if Indexable(m.pos) then s1.(geo := s.geo[(region, m.id) := m.pos]) else s1
  }

  /** The hash's time to live runs out; the geo index has none. */
  function Expire(s: Store, id: string): Store {
    s.(devices := s.devices - {id})
  }

  function UpsertAll(s: Store, region: string, batch: seq<Message>): Store
    decreases |batch|
  {
    if batch == [] then s else UpsertAll(Upsert(s, region, batch[0]), region, batch[1..])
  }

  class StateStoreService {
    var store: Store

    /** One pipelined command per message; results are only counted for a log line. */
    method UpdateCurrentStateBatch(region: string, batch: seq<Message>)
      modifies this
      ensures store == UpsertAll(old(store), region, batch)
    {
      for i := 0 to |batch|
        invariant UpsertAll(store, region, batch[i..]) == UpsertAll(old(store), region, batch)
      {
        assert batch[i..][1..] == batch[i + 1..];
        store := Upsert(store, region, batch[i]);
      }
    }
  }

  // ---- runs: commands of any number of batches interleave one by one, keys expire at any time ----

  datatype Op = Arrive(region: string, m: Message) | Expiry(device: string)

  function Apply(s: Store, op: Op): Store {
    match op
    case Arrive(region, m) => Upsert(s, region, m)
    case Expiry(id) => Expire(s, id)
  }

  function Run(ops: seq<Op>): Store
    decreases |ops|
  {
    if ops == [] then Store(map[], map[]) else Apply(Run(ops[..|ops| - 1]), ops[|ops| - 1])
  }

  function Arrivals(region: string, batch: seq<Message>): (ops: seq<Op>)
    ensures |ops| == |batch| && forall i | 0 <= i < |batch| :: ops[i] == Arrive(region, batch[i])
  {
    if batch == [] then [] else [Arrive(region, batch[0])] + Arrivals(region, batch[1..])
  }

  lemma ArrivesLast(ops: seq<Op>, op: Op)
    ensures Run(ops + [op]) == Apply(Run(ops), op)
  {
    assert (ops + [op])[..|ops|] == ops;
  }

  /** A batch does what its messages do that arrive one by one, in order. */
  lemma {:induction false} BatchIsArrivals(ops: seq<Op>, region: string, batch: seq<Message>)
    ensures UpsertAll(Run(ops), region, batch) == Run(ops + Arrivals(region, batch))
    decreases |batch|
  {
    if batch == [] {
      assert ops + [] == ops;
    } else {
      var first := Arrive(region, batch[0]);
      ArrivesLast(ops, first);
      BatchIsArrivals(ops + [first], region, batch[1..]);
      assert ops + [first] + Arrivals(region, batch[1..]) == ops + ([first] + Arrivals(region, batch[1..]));
    }
  }

  /** Position `i` holds a message of device `d` with a usable timestamp that came after its last expiry. */
  predicate Counts(ops: seq<Op>, d: string, i: int) {
    && 0 <= i < |ops| && ops[i].Arrive? && ops[i].m.id == d && ops[i].m.ts >= 0
    && forall j | i < j < |ops| :: ops[j] != Expiry(d)
  }

  /** The message a reader should see: the newest timestamp since the last expiry, and of those with
      that timestamp the last to arrive. */
  ghost predicate Latest(ops: seq<Op>, d: string, i: int) {
    && Counts(ops, d, i)
    && forall j | Counts(ops, d, j) :: ops[j].m.ts <= ops[i].m.ts && (i < j ==> ops[j].m.ts < ops[i].m.ts)
  }

  ghost predicate Shows(ops: seq<Op>, d: string) {
    && (d in Run(ops).devices ==>
          exists i :: Latest(ops, d, i) && Run(ops).devices[d] == Entry(ops[i].m.ts, ops[i].m.payload))
    && (d !in Run(ops).devices ==> forall i :: !Counts(ops, d, i))
  }

  lemma CountsPrefix(ops: seq<Op>, d: string, i: int)
    requires ops != []
    ensures var n := |ops| - 1;
            Counts(ops, d, i) <==>
              || (i == n && ops[n].Arrive? && ops[n].m.id == d && ops[n].m.ts >= 0)
              || (i < n && Counts(ops[..n], d, i) && ops[n] != Expiry(d))
  {
  }

  lemma NonNegative(ops: seq<Op>, d: string)
    requires Shows(ops, d)
    ensures d in Run(ops).devices ==> Run(ops).devices[d].ts >= 0
  {
  }

  lemma {:induction false} StoreShowsLatest(ops: seq<Op>, d: string)
    ensures Shows(ops, d)
    decreases |ops|
  {
    if ops != [] {
      var n := |ops| - 1;
      var front := ops[..n];
      StoreShowsLatest(front, d);
      NonNegative(front, d);
      forall i ensures Counts(ops, d, i) ==> (i == n || (i < n && Counts(front, d, i))) {
        CountsPrefix(ops, d, i);
      }
      CountsPrefix(ops, d, n);
      if d in Run(ops).devices {
        LatestAfter(ops, d);
      } else {
        forall i ensures !Counts(ops, d, i) {
          CountsPrefix(ops, d, i);
        }
      }
    }
  }

  /** The last command set the device's entry, or left it as it was. */
  predicate Accepted(ops: seq<Op>, d: string)
    requires ops != []
  {
    var n := |ops| - 1;
    && ops[n].Arrive? && ops[n].m.id == d
    && ops[n].m.ts >= (if d in Run(ops[..n]).devices then Run(ops[..n]).devices[d].ts else 0)
  }

  lemma LastIsLatest(ops: seq<Op>, d: string)
    requires ops != [] && Shows(ops[..|ops| - 1], d) && Accepted(ops, d)
    ensures Latest(ops, d, |ops| - 1)
  {
    var n := |ops| - 1;
    NonNegative(ops[..n], d);
    CountsPrefix(ops, d, n);
    forall j | Counts(ops, d, j) ensures ops[j].m.ts <= ops[n].m.ts && j <= n {
      CountsPrefix(ops, d, j);
      assert j < n ==> ops[..n][j] == ops[j];
    }
  }

  lemma LatestCarries(ops: seq<Op>, d: string, i: int)
    requires ops != [] && Latest(ops[..|ops| - 1], d, i) && ops[|ops| - 1] != Expiry(d)
    requires ops[|ops| - 1].Arrive? && ops[|ops| - 1].m.id == d ==> ops[|ops| - 1].m.ts < ops[i].m.ts
    ensures Latest(ops, d, i)
  {
  }

  lemma EntryAfter(ops: seq<Op>, d: string)
    requires ops != [] && d in Run(ops).devices
    ensures var n := |ops| - 1;
            if Accepted(ops, d) then Run(ops).devices[d] == Entry(ops[n].m.ts, ops[n].m.payload)
            else && ops[n] != Expiry(d) && d in Run(ops[..n]).devices
                 && Run(ops).devices[d] == Run(ops[..n]).devices[d]
                 && (ops[n].Arrive? && ops[n].m.id == d ==> ops[n].m.ts < Run(ops[..n]).devices[d].ts)
  {
  }

  lemma LatestAfter(ops: seq<Op>, d: string)
    requires ops != [] && Shows(ops[..|ops| - 1], d) && d in Run(ops).devices
    ensures exists i :: Latest(ops, d, i) && Run(ops).devices[d] == Entry(ops[i].m.ts, ops[i].m.payload)
  {
    var n := |ops| - 1;
    var front := ops[..n];
    EntryAfter(ops, d);
    if Accepted(ops, d) {
      LastIsLatest(ops, d);
    } else {
      var i :| Latest(front, d, i) && Run(front).devices[d] == Entry(front[i].m.ts, front[i].m.payload);
      assert front[i] == ops[i];
      LatestCarries(ops, d, i);
    }
  }

  lemma LatestIsShown(ops: seq<Op>, d: string, i: int)
    requires Latest(ops, d, i)
    ensures d in Run(ops).devices && Run(ops).devices[d] == Entry(ops[i].m.ts, ops[i].m.payload)
  {
    StoreShowsLatest(ops, d);
    var k :| Latest(ops, d, k) && Run(ops).devices[d] == Entry(ops[k].m.ts, ops[k].m.payload);
    assert i == k;
  }

  /** After any interleaving of messages and expiries, with timestamps of either sign: a device is
      present exactly if a message with a non-negative timestamp came since its last expiry; there is
      then a newest one, last arrival first among equals, and the device shows it. */
  lemma LastWriterWins(ops: seq<Op>, d: string)
    ensures d in Run(ops).devices <==> exists i :: Counts(ops, d, i)
    ensures d in Run(ops).devices ==> exists i :: Latest(ops, d, i)
    ensures forall i | Latest(ops, d, i) ::
              d in Run(ops).devices && Run(ops).devices[d] == Entry(ops[i].m.ts, ops[i].m.payload)
  {
    StoreShowsLatest(ops, d);
    forall i | Latest(ops, d, i)
      ensures d in Run(ops).devices && Run(ops).devices[d] == Entry(ops[i].m.ts, ops[i].m.payload)
    {
      LatestIsShown(ops, d, i);
    }
  }

  // ---- the geo index ----

  lemma AcceptedExactly(ops: seq<Op>, d: string)
    requires ops != []
    ensures Accepted(ops, d) <==> Latest(ops, d, |ops| - 1)
  {
    var n := |ops| - 1;
    StoreShowsLatest(ops[..n], d);
    if Accepted(ops, d) {
      LastIsLatest(ops, d);
    }
    if Latest(ops, d, n) && d in Run(ops[..n]).devices {
      var i :| Latest(ops[..n], d, i) && Run(ops[..n]).devices[d] == Entry(ops[..n][i].m.ts, ops[..n][i].m.payload);
      CountsPrefix(ops, d, i);
    }
  }

  /** Message `n` wins on arrival, being at least as new as everything since the last expiry before it,
      and puts its position into the index of region `r`. */
  ghost predicate Indexes(ops: seq<Op>, d: string, r: string, n: int) {
    0 <= n < |ops| && Latest(ops[..n + 1], d, n) && ops[n].region == r && Indexable(ops[n].m.pos)
  }

  ghost predicate LastIndexes(ops: seq<Op>, d: string, r: string, n: int) {
    Indexes(ops, d, r, n) && forall k | Indexes(ops, d, r, k) :: k <= n
  }

  lemma IndexesPrefix(ops: seq<Op>, d: string, r: string, k: int)
    requires ops != [] && k < |ops| - 1
    ensures Indexes(ops, d, r, k) <==> Indexes(ops[..|ops| - 1], d, r, k)
  {
    if 0 <= k {
      assert ops[..|ops| - 1][..k + 1] == ops[..k + 1];
    }
  }

  ghost predicate GeoTold(ops: seq<Op>, d: string, r: string) {
    && ((r, d) in Run(ops).geo <==> exists n :: Indexes(ops, d, r, n))
    && ((r, d) in Run(ops).geo ==> exists n :: LastIndexes(ops, d, r, n) && Run(ops).geo[(r, d)] == ops[n].m.pos)
  }

  /** The index of a region, told by messages and expiries alone: a device is in it exactly if some
      winning, indexable message named the region, and its position is that of the last such message.
      An expiry takes nothing out. */
  lemma {:induction false} GeoIndexExactly(ops: seq<Op>, d: string, r: string)
    ensures GeoTold(ops, d, r)
    decreases |ops|
  {
    if ops != [] {
      var last := |ops| - 1;
      GeoIndexExactly(ops[..last], d, r);
      AcceptedExactly(ops, d);
      assert ops[..last + 1] == ops;
      if Indexes(ops, d, r, last) {
        assert LastIndexes(ops, d, r, last);
      } else {
        GeoCarries(ops, d, r);
      }
    }
  }

  lemma GeoStays(ops: seq<Op>, d: string, r: string)
    requires ops != [] && !Indexes(ops, d, r, |ops| - 1)
    ensures var front := ops[..|ops| - 1];
            && ((r, d) in Run(ops).geo <==> (r, d) in Run(front).geo)
            && ((r, d) in Run(front).geo ==> Run(ops).geo[(r, d)] == Run(front).geo[(r, d)])
  {
    AcceptedExactly(ops, d);
    assert ops[..|ops| - 1 + 1] == ops;
  }

  lemma GeoCarries(ops: seq<Op>, d: string, r: string)
    requires ops != [] && !Indexes(ops, d, r, |ops| - 1) && GeoTold(ops[..|ops| - 1], d, r)
    ensures GeoTold(ops, d, r)
  {
    var front := ops[..|ops| - 1];
    GeoStays(ops, d, r);
    forall k ensures Indexes(ops, d, r, k) <==> Indexes(front, d, r, k) {
      if k < |ops| - 1 {
        IndexesPrefix(ops, d, r, k);
      }
    }
    if (r, d) in Run(front).geo {
      var n :| LastIndexes(front, d, r, n) && Run(front).geo[(r, d)] == front[n].m.pos;
      assert Indexes(ops, d, r, n) && front[n] == ops[n];
      assert LastIndexes(ops, d, r, n);
    }
  }

  lemma CountsEarlier(ops: seq<Op>, d: string, i: int, k: int)
    requires 0 <= i <= k < |ops|
    ensures Counts(ops, d, i) ==> Counts(ops[..k + 1], d, i)
    ensures Counts(ops, d, i) && Counts(ops[..k + 1], d, k) ==> Counts(ops, d, k)
    ensures forall j | Counts(ops, d, i) && Counts(ops[..i + 1], d, j) :: Counts(ops, d, j)
  {
    assert forall j | 0 <= j <= k :: ops[..k + 1][j] == ops[j];
    assert forall j | 0 <= j <= i :: ops[..i + 1][j] == ops[j];
  }

  lemma ShownHasWon(ops: seq<Op>, d: string, i: int)
    requires Latest(ops, d, i)
    ensures Latest(ops[..i + 1], d, i)
  {
    CountsEarlier(ops, d, i, i);
    assert forall j | 0 <= j <= i :: ops[..i + 1][j] == ops[j];
  }

  /** No later message has won while the newest one is still shown. */
  lemma ShownIsLastToWin(ops: seq<Op>, d: string, i: int, k: int)
    requires Latest(ops, d, i) && 0 <= k < |ops| && Latest(ops[..k + 1], d, k)
    ensures k <= i
  {
    if k > i {
      CountsEarlier(ops, d, i, k);
      assert false;
    }
  }

  /** A present device shows message `i`. The entry of a region stems from that message exactly if the
      region is the one it named and its position can be indexed; every other entry of the device is
      stale, and is there exactly if some earlier message that once won put it there. */
  lemma GeoFollowsHashExactly(ops: seq<Op>, d: string, r: string, i: int)
    requires Latest(ops, d, i)
    ensures d in Run(ops).devices && Run(ops).devices[d] == Entry(ops[i].m.ts, ops[i].m.payload)
    ensures LastIndexes(ops, d, r, i) <==> ops[i].region == r && Indexable(ops[i].m.pos)
    ensures LastIndexes(ops, d, r, i) ==> (r, d) in Run(ops).geo && Run(ops).geo[(r, d)] == ops[i].m.pos
    ensures (r, d) in Run(ops).geo && !LastIndexes(ops, d, r, i) <==>
            (ops[i].region != r || !Indexable(ops[i].m.pos)) && exists n | n < i :: Indexes(ops, d, r, n)
  {
    LatestIsShown(ops, d, i);
    GeoIndexExactly(ops, d, r);
    ShownHasWon(ops, d, i);
    forall k | Indexes(ops, d, r, k) ensures k <= i {
      ShownIsLastToWin(ops, d, i, k);
    }
    if n :| Indexes(ops, d, r, n) && n < i {
      assert (r, d) in Run(ops).geo;
    }
  }

  /** In the region that the shown message named, the indexed position is that message's exactly if it
      can be indexed. */
  lemma OwnRegionExactly(ops: seq<Op>, d: string, i: int)
    requires Latest(ops, d, i)
    ensures var k := (ops[i].region, d);
            k in Run(ops).geo && Run(ops).geo[k] == ops[i].m.pos <==>
            -180.0 <= ops[i].m.pos.lon <= 180.0 && -85.05112878 <= ops[i].m.pos.lat <= 85.05112878
  {
    GeoFollowsHashExactly(ops, d, ops[i].region, i);
    GeoIndexExactly(ops, d, ops[i].region);
  }

  /** A device without a hash is still indexed exactly if its messages have all expired or have negative
      times, and one of them once won there. */
  lemma GhostsExactly(ops: seq<Op>, d: string, r: string)
    ensures d !in Run(ops).devices && (r, d) in Run(ops).geo <==>
            (forall i :: !Counts(ops, d, i)) && exists n :: Indexes(ops, d, r, n)
  {
    LastWriterWins(ops, d);
    GeoIndexExactly(ops, d, r);
  }

  lemma TwoOps(a: Op, b: Op)
    ensures Run([a, b]) == Apply(Apply(Store(map[], map[]), a), b)
  {
    assert [a, b][..1] == [a] && [a][..0] == [];
    assert Run([a]) == Apply(Run([]), a);
  }

  /** A device that moves to another region stays indexed at its old position in the old one. */
  lemma OldRegionGoesStale()
    ensures var p, q := Position(1.0, 1.0), Position(2.0, 2.0);
            var s := Run([Arrive("east", Message("d", 1, p, "a")), Arrive("west", Message("d", 2, q, "b"))]);
            s == Store(map["d" := Entry(2, "b")], map[("east", "d") := p, ("west", "d") := q])
  {
    TwoOps(Arrive("east", Message("d", 1, Position(1.0, 1.0), "a")),
           Arrive("west", Message("d", 2, Position(2.0, 2.0), "b")));
  }

  /** A device that goes too far north for the index shows its new message over its old position. */
  lemma HighLatitudeGoesStale()
    ensures var p, q := Position(1.0, 84.0), Position(1.0, 86.0);
            var s := Run([Arrive("east", Message("d", 1, p, "a")), Arrive("east", Message("d", 2, q, "b"))]);
            s == Store(map["d" := Entry(2, "b")], map[("east", "d") := p])
  {
    TwoOps(Arrive("east", Message("d", 1, Position(1.0, 84.0), "a")),
           Arrive("east", Message("d", 2, Position(1.0, 86.0), "b")));
  }

  /** A device whose hash has expired stays indexed. */
  lemma ExpiredStaysIndexed()
    ensures var p := Position(1.0, 1.0);
            Run([Arrive("east", Message("d", 1, p, "a")), Expiry("d")]) == Store(map[], map[("east", "d") := p])
  {
    TwoOps(Arrive("east", Message("d", 1, Position(1.0, 1.0), "a")), Expiry("d"));
  }

  // ---- arrival order ----

  predicate NoExpiry(ops: seq<Op>) {
    forall i | 0 <= i < |ops| :: ops[i].Arrive?
  }

  /** No two arrivals of a device share a timestamp, unless they are the same message. */
  predicate DistinctTimes(ops: seq<Op>) {
    forall i, j | 0 <= i < |ops| && 0 <= j < |ops| ::
      ops[i].Arrive? && ops[j].Arrive? && ops[i].m.id == ops[j].m.id && ops[i].m.ts == ops[j].m.ts ==> ops[i] == ops[j]
  }

  lemma SameElements(ops: seq<Op>, other: seq<Op>)
    requires multiset(ops) == multiset(other) && NoExpiry(ops)
    ensures (forall o | o in ops :: o in other) && (forall o | o in other :: o in ops) && NoExpiry(other)
  {
    forall o | o in ops ensures o in other {
      assert o in multiset(ops);
    }
    forall o | o in other ensures o in ops {
      assert o in multiset(other);
    }
    forall i | 0 <= i < |other| ensures other[i].Arrive? {
      assert other[i] in ops;
    }
  }

  lemma SameMessageFound(ops: seq<Op>, other: seq<Op>, d: string, i: int) returns (k: int)
    requires NoExpiry(ops) && NoExpiry(other) && (forall o | o in ops :: o in other) && Counts(ops, d, i)
    ensures Counts(other, d, k) && other[k] == ops[i]
  {
    assert ops[i] in other;
    k :| 0 <= k < |other| && other[k] == ops[i];
  }

  lemma PresentInBoth(ops: seq<Op>, other: seq<Op>, d: string)
    requires NoExpiry(ops) && NoExpiry(other) && (forall o | o in ops :: o in other)
    requires d in Run(ops).devices
    ensures d in Run(other).devices
  {
    StoreShowsLatest(ops, d);
    StoreShowsLatest(other, d);
    var i :| Latest(ops, d, i);
    var k := SameMessageFound(ops, other, d, i);
  }

  lemma SameLatest(ops: seq<Op>, other: seq<Op>, d: string, i: int, k: int)
    requires DistinctTimes(ops) && NoExpiry(ops) && NoExpiry(other)
    requires (forall o | o in ops :: o in other) && (forall o | o in other :: o in ops)
    requires Latest(ops, d, i) && Latest(other, d, k)
    ensures ops[i] == other[k]
  {
    var i' := SameMessageFound(ops, other, d, i);
    var k' := SameMessageFound(other, ops, d, k);
  }

  /** With distinct timestamps and no expiry, any two arrival orders of the same messages leave the
      same device table. */
  lemma OrderDoesNotMatter(ops: seq<Op>, other: seq<Op>, d: string)
    requires multiset(ops) == multiset(other) && NoExpiry(ops) && DistinctTimes(ops)
    ensures d in Run(ops).devices <==> d in Run(other).devices
    ensures d in Run(ops).devices ==> Run(ops).devices[d] == Run(other).devices[d]
  {
    SameElements(ops, other);
    if d in Run(ops).devices {
      PresentInBoth(ops, other, d);
      StoreShowsLatest(ops, d);
      StoreShowsLatest(other, d);
      var i :| Latest(ops, d, i) && Run(ops).devices[d] == Entry(ops[i].m.ts, ops[i].m.payload);
      var k :| Latest(other, d, k) && Run(other).devices[d] == Entry(other[k].m.ts, other[k].m.payload);
      SameLatest(ops, other, d, i, k);
    } else if d in Run(other).devices {
      PresentInBoth(other, ops, d);
    }
  }
}
