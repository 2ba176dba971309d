/** In-memory aggregation of tracked activities and its conversion to database rows. */
module ActivityBatches {
  import opened Strings
  import opened Sorting

  /** Entity identifiers are 128-bit values. */
  type EntityId = nat
  type Day = string
  type Key = (EntityId, Day)
  type Counters = map<Key, nat>
  type Row = (EntityId, Day, nat)

  datatype Kind = Community | Event | Group

  datatype Activity = View(kind: Kind, id: EntityId)

  /** Totals are 32-bit and wrap. */
  const U32: nat := 0x1_0000_0000

  datatype Totals = Totals(community: Counters, event: Counters, group: Counters) {
    function Of(kind: Kind): Counters {
      match kind
      case Community => community
      case Event => event
      case Group => group
    }

    function Put(kind: Kind, m: Counters): Totals {
      match kind
      case Community => this.(community := m)
      case Event => this.(event := m)
      case Group => this.(group := m)
    }

    predicate IsEmpty() {
      community == map[] && event == map[] && group == map[]
    }
  }

  const NO_TOTALS: Totals := Totals(map[], map[], map[])

  function Get(m: Counters, k: Key): nat {
    if k in m then m[k] else 0
  }

  /** `*entry(k).or_default() += 1` on a wrapping 32-bit total. */
  function Bump(m: Counters, k: Key): Counters {
    m[k := (Get(m, k) + 1) % U32]
  }

  function Aggregate(t: Totals, a: Activity, day: Day): Totals {
    t.Put(a.kind, Bump(t.Of(a.kind), (a.id, day)))
  }

  /** Aggregates a sequence of activities, each under the day read when it is aggregated. */
  function AggregateAll(t: Totals, log: seq<(Activity, Day)>): Totals {
    if log == [] then t
    else Aggregate(AggregateAll(t, log[..|log| - 1]), log[|log| - 1].0, log[|log| - 1].1)
  }

  /** How many logged activities fall on a counter. */
  function Count(log: seq<(Activity, Day)>, kind: Kind, k: Key): nat {
    if log == [] then 0
    else
      var (a, day) := log[|log| - 1];
      Count(log[..|log| - 1], kind, k) + if a.kind == kind && (a.id, day) == k then 1 else 0
  }

  lemma BumpAt(t: Totals, a: Activity, day: Day, kind: Kind, k: Key)
    ensures Get(Aggregate(t, a, day).Of(kind), k) ==
            if a.kind == kind && (a.id, day) == k then (Get(t.Of(kind), k) + 1) % U32 else Get(t.Of(kind), k)
  {
  }

  lemma WrappedSuccessor(n: nat)
    ensures (n % U32 + 1) % U32 == (n + 1) % U32
  {
  }

  /** The aggregated totals are the direct counts on top of what was there, modulo the width of a total. */
  lemma {:induction false} AggregateAllCounts(t: Totals, log: seq<(Activity, Day)>, kind: Kind, k: Key)
    requires Get(t.Of(kind), k) < U32
    ensures Get(AggregateAll(t, log).Of(kind), k) == (Get(t.Of(kind), k) + Count(log, kind, k)) % 4294967296
  {
    hide Aggregate, Get;
    if log != [] {
      var init, a, day := log[..|log| - 1], log[|log| - 1].0, log[|log| - 1].1;
      AggregateAllCounts(t, init, kind, k);
      WrappedSuccessor(Get(t.Of(kind), k) + Count(init, kind, k));
      BumpAt(AggregateAll(t, init), a, day, kind, k);
    }
  }

  /** The logged activities that fall on a counter. */
  ghost function Hits(log: seq<(Activity, Day)>, kind: Kind, k: Key): set<int> {
    set i | 0 <= i < |log| && log[i].0.kind == kind && (log[i].0.id, log[i].1) == k
  }

  /** A count is the number of logged activities of that kind, entity and day. */
  lemma {:induction false} CountIsCardinality(log: seq<(Activity, Day)>, kind: Kind, k: Key)
    ensures Count(log, kind, k) == |Hits(log, kind, k)|
  {
    if log != [] {
      var init, n := log[..|log| - 1], |log| - 1;
      CountIsCardinality(init, kind, k);
      assert forall i :: 0 <= i < n ==> log[i] == init[i];
      if log[n].0.kind == kind && (log[n].0.id, log[n].1) == k {
        assert Hits(log, kind, k) == Hits(init, kind, k) + {n};
      } else {
        assert Hits(log, kind, k) == Hits(init, kind, k);
      }
    }
  }

  lemma AggregatedHits(t: Totals, log: seq<(Activity, Day)>)
    ensures forall kind, k :: (
      Get(t.Of(kind), k) < U32 ==>
      Get(AggregateAll(t, log).Of(kind), k) == (Get(t.Of(kind), k) + |Hits(log, kind, k)|) % U32)
  {
    hide Get, Hits, AggregateAll;
    forall kind, k | Get(t.Of(kind), k) < U32
      ensures Get(AggregateAll(t, log).Of(kind), k) == (Get(t.Of(kind), k) + |Hits(log, kind, k)|) % U32
    {
      AggregateAllCounts(t, log, kind, k);
      CountIsCardinality(log, kind, k);
    }
  }

  function Stamp(queue: seq<Activity>, clock: nat -> Day): (log: seq<(Activity, Day)>)
    ensures |log| == |queue| && forall i :: 0 <= i < |queue| ==> log[i] == (queue[i], clock(i))
  {
    seq(|queue|, i requires 0 <= i < |queue| => (queue[i], clock(i)))
  }

  class Receiver {
    var queue: seq<Activity>

    constructor ()
      ensures queue == []
    {
      queue := [];
    }
  }

  class Batches {
    var communityViews: Counters
    var eventViews: Counters
    var groupViews: Counters

    constructor ()
      ensures Value() == NO_TOTALS
    {
      communityViews, eventViews, groupViews := map[], map[], map[];
    }

    ghost function Value(): Totals
      reads this
    {
      Totals(communityViews, eventViews, groupViews)
    }

    method AggregateActivity(a: Activity, day: Day)
      modifies this
      ensures Value() == Aggregate(old(Value()), a, day)
    {
      match a.kind
      case Community => communityViews := Bump(communityViews, (a.id, day));
      case Event => eventViews := Bump(eventViews, (a.id, day));
      case Group => groupViews := Bump(groupViews, (a.id, day));
    }

    method Clear()
      modifies this
      ensures Value() == NO_TOTALS
    {
      communityViews, eventViews, groupViews := map[], map[], map[];
    }

    method IsEmpty() returns (empty: bool)
      ensures empty <==> Value().IsEmpty()
    {
      empty := communityViews == map[] && eventViews == map[] && groupViews == map[];
    }

    /** Empties the queue into the batches, in order, under the days the clock shows meanwhile. */
    method DrainQueuedActivities(rx: Receiver, clock: nat -> Day)
      modifies this, rx
      ensures rx.queue == []
      ensures Value() == AggregateAll(old(Value()), Stamp(old(rx.queue), clock))
      ensures forall kind, k :: (
        Get(old(Value()).Of(kind), k) < U32 ==>
        Get(Value().Of(kind), k) == (Get(old(Value()).Of(kind), k) + |Hits(Stamp(old(rx.queue), clock), kind, k)|) % U32)
    {
      ghost var all := Stamp(rx.queue, clock);
      var i := 0;
      while rx.queue != []
        invariant i + |rx.queue| == |all|
        invariant rx.queue == old(rx.queue)[i..]
        invariant Value() == AggregateAll(old(Value()), all[..i])
        decreases |rx.queue|
      {
        var a := rx.queue[0];
        assert all[i] == (a, clock(i)) && all[..i + 1][..i] == all[..i];
        rx.queue := rx.queue[1..];
        AggregateActivity(a, clock(i));
        i := i + 1;
      }
      assert all[..i] == all;
      hide Get, Hits, AggregateAll, Stamp;
      AggregatedHits(old(Value()), all);
    }
  }

  // ---- Database rows ------------------------------------------------------------------------

  /** The order of `(EntityId, Day, Total)` tuples. */
  predicate RowLeq(a: Row, b: Row) {
    a.0 < b.0 || (a.0 == b.0 && ((a.1 != b.1 && LexLeq(a.1, b.1)) || (a.1 == b.1 && a.2 <= b.2)))
  }

  lemma RowOrder()
    ensures TotalOrder(RowLeq)
  {
    forall a, b
      ensures RowLeq(a, b) || RowLeq(b, a)
    {
      LexTotal(a.1, b.1);
    }
    forall a, b, c | RowLeq(a, b) && RowLeq(b, c)
      ensures RowLeq(a, c)
    {
      RowTransitive(a, b, c);
    }
  }

  lemma RowTransitive(a: Row, b: Row, c: Row)
    requires RowLeq(a, b) && RowLeq(b, c)
    ensures RowLeq(a, c)
  {
    if a.0 == b.0 == c.0 && a.1 != b.1 && b.1 != c.1 {
      LexTransitive(a.1, b.1, c.1);
      if a.1 == c.1 { LexAntisymmetric(a.1, b.1); }
    }
  }

  ghost predicate StrictKeys(rows: seq<Row>) {
    forall i, j :: 0 <= i < j < |rows| ==>
      rows[i].0 < rows[j].0 || (rows[i].0 == rows[j].0 && rows[i].1 != rows[j].1 && LexLeq(rows[i].1, rows[j].1))
  }

  /** The rows hold exactly the entries of the counters. */
  ghost predicate RowsOf(rows: seq<Row>, m: Counters) {
    && (forall i :: 0 <= i < |rows| ==> (rows[i].0, rows[i].1) in m && m[(rows[i].0, rows[i].1)] == rows[i].2)
    && (forall k :: k in m ==> (k.0, k.1, m[k]) in rows)
  }

  ghost predicate NoRepeatedKey(rows: seq<Row>) {
    forall i, j :: 0 <= i < j < |rows| ==> (rows[i].0, rows[i].1) != (rows[j].0, rows[j].1)
  }

  /** Rows are strictly sorted by entity and day, and hold exactly the counters. */
  method PrepareBatchData(data: Counters) returns (rows: seq<Row>)
    ensures StrictKeys(rows) && RowsOf(rows, data)
  {
    rows := [];
    var rest := data;
    while rest != map[]
      invariant forall k :: k in rest ==> k in data && data[k] == rest[k]
      invariant forall k :: k in data ==> (k in rest <==> (k.0, k.1, data[k]) !in rows)
      invariant forall i :: 0 <= i < |rows| ==> (rows[i].0, rows[i].1) in data && data[(rows[i].0, rows[i].1)] == rows[i].2
      invariant NoRepeatedKey(rows)
      decreases |rest|
    {
      var k :| k in rest;
      rows := rows + [(k.0, k.1, rest[k])];
      rest := rest - {k};
    }
    rows := SortRows(rows, data);
  }

  method SortRows(unsorted: seq<Row>, ghost m: Counters) returns (rows: seq<Row>)
    requires RowsOf(unsorted, m) && NoRepeatedKey(unsorted)
    ensures StrictKeys(rows) && RowsOf(rows, m)
  {
    RowOrder();
    SortSorted(unsorted, RowLeq);
    rows := Sort(unsorted, RowLeq);
    RowsOfPermutation(unsorted, rows, m);
    SortedKeepsKeys(unsorted, rows);
  }

  lemma RowsOfPermutation(a: seq<Row>, b: seq<Row>, m: Counters)
    requires RowsOf(a, m) && multiset(a) == multiset(b)
    ensures RowsOf(b, m)
  {
    forall i | 0 <= i < |b|
      ensures (b[i].0, b[i].1) in m && m[(b[i].0, b[i].1)] == b[i].2
    {
      assert b[i] in multiset(a);
    }
    forall k | k in m
      ensures (k.0, k.1, m[k]) in b
    {
      assert (k.0, k.1, m[k]) in multiset(a);
    }
  }

  lemma SortedKeepsKeys(unsorted: seq<Row>, rows: seq<Row>)
    requires multiset(unsorted) == multiset(rows) && NoRepeatedKey(unsorted) && SortedBy(rows, RowLeq)
    ensures StrictKeys(rows)
  {
    forall i, j | 0 <= i < j < |rows|
      ensures (rows[i].0, rows[i].1) != (rows[j].0, rows[j].1)
    {
      var a, b := rows[i], rows[j];
      if a == b {
        SingleOccurrence(unsorted, a);
        NoRepeat(rows, i, j);
      } else {
        assert a in multiset(unsorted) && b in multiset(unsorted);
        var x :| 0 <= x < |unsorted| && unsorted[x] == a;
        var y :| 0 <= y < |unsorted| && unsorted[y] == b;
        assert x < y || y < x;
      }
    }
    assert forall i, j :: 0 <= i < j < |rows| ==> RowLeq(rows[i], rows[j]);
  }

  lemma {:induction false} SingleOccurrence(rows: seq<Row>, r: Row)
    requires NoRepeatedKey(rows)
    ensures multiset(rows)[r] <= 1
  {
    if rows != [] {
      var init, last := rows[..|rows| - 1], rows[|rows| - 1];
      assert rows == init + [last];
      SingleOccurrence(init, r);
      if last == r {
        assert forall i :: 0 <= i < |init| ==> init[i] == rows[i] && init[i] != r;
        assert r !in init;
      }
    }
  }

  /** The upsert of a views table: a row is added to the stored total unless its entity is no longer active. */
  function ApplyRows(table: Counters, rows: seq<Row>, inactive: set<EntityId>): Counters {
    if rows == [] then table
    else
      var t, r := ApplyRows(table, rows[..|rows| - 1], inactive), rows[|rows| - 1];
      if r.0 in inactive then t else t[(r.0, r.1) := Get(t, (r.0, r.1)) + r.2]
  }

  /** What an update writes of the counters it is given, and what it does not. */
  function Kept(m: Counters, ok: bool, inactive: set<EntityId>): Counters {
    map k | k in m && ok && k.0 !in inactive :: m[k]
  }

  function Dropped(m: Counters, ok: bool, inactive: set<EntityId>): Counters {
    map k | k in m && !(ok && k.0 !in inactive) :: m[k]
  }

  /** Key-wise sum. */
  function Add(m: Counters, b: Counters): Counters {
    map k | k in m.Keys + b.Keys :: Get(m, k) + Get(b, k)
  }

  lemma {:induction false} ApplyRowsAt(table: Counters, rows: seq<Row>, inactive: set<EntityId>, k: Key)
    requires NoRepeatedKey(rows)
    ensures var t := ApplyRows(table, rows, inactive);
            && (k in t <==> k in table || (k.0 !in inactive && exists i :: 0 <= i < |rows| && (rows[i].0, rows[i].1) == k))
            && (forall i :: 0 <= i < |rows| && (rows[i].0, rows[i].1) == k && k.0 !in inactive ==> Get(t, k) == Get(table, k) + rows[i].2)
            && (k.0 in inactive || (forall i :: 0 <= i < |rows| ==> (rows[i].0, rows[i].1) != k) ==> Get(t, k) == Get(table, k))
  {
    if rows != [] {
      var init := rows[..|rows| - 1];
      assert forall i :: 0 <= i < |init| ==> rows[i] == init[i];
      ApplyRowsAt(table, init, inactive, k);
    }
  }

  /** Writing the prepared rows adds the counters of the active entities: nothing is dropped or counted twice. */
  lemma {:induction false} PreparedRowsAdd(table: Counters, rows: seq<Row>, m: Counters, inactive: set<EntityId>)
    requires StrictKeys(rows) && RowsOf(rows, m)
    ensures ApplyRows(table, rows, inactive) == Add(table, Kept(m, true, inactive))
  {
    hide StrictKeys, RowsOf, ApplyRows;
    var t, kept := ApplyRows(table, rows, inactive), Kept(m, true, inactive);
    forall k
      ensures k in t <==> k in table || k in kept
      ensures k in t ==> t[k] == Get(table, k) + Get(kept, k)
    {
      PreparedRowsAt(table, rows, m, inactive, k);
    }
    assert t.Keys == table.Keys + kept.Keys;
  }

  lemma PreparedRowsAt(table: Counters, rows: seq<Row>, m: Counters, inactive: set<EntityId>, k: Key)
    requires StrictKeys(rows) && RowsOf(rows, m)
    ensures k in ApplyRows(table, rows, inactive) <==> k in table || k in Kept(m, true, inactive)
    ensures Get(ApplyRows(table, rows, inactive), k) == Get(table, k) + Get(Kept(m, true, inactive), k)
  {
    assert NoRepeatedKey(rows);
    ApplyRowsAt(table, rows, inactive, k);
    if k in m {
      var i :| 0 <= i < |rows| && rows[i] == (k.0, k.1, m[k]);
      assert (rows[i].0, rows[i].1) == k;
    }
  }

  lemma KeptOrDropped(m: Counters, ok: bool, inactive: set<EntityId>, k: Key)
    ensures Get(Kept(m, ok, inactive), k) + Get(Dropped(m, ok, inactive), k) == Get(m, k)
    ensures Get(Dropped(m, ok, inactive), k) == if ok && k.0 !in inactive then 0 else Get(m, k)
  {
  }

  lemma PutAddAt(t: Totals, m: Counters, which: Kind, kind: Kind, k: Key)
    ensures Get(t.Put(which, Add(t.Of(which), m)).Of(kind), k) ==
            Get(t.Of(kind), k) + if which == kind then Get(m, k) else 0
  {
  }

  /** One table gains what the database accepts of its counters. */
  function Flushed(t: Totals, kind: Kind, counters: Counters, ok: bool, inactive: set<EntityId>): Totals {
    if ok && counters != map[] then t.Put(kind, Add(t.Of(kind), Kept(counters, true, inactive))) else t
  }

  lemma FlushedAt(t: Totals, which: Kind, counters: Counters, ok: bool, inactive: set<EntityId>, kind: Kind, k: Key)
    ensures Get(Flushed(t, which, counters, ok, inactive).Of(kind), k) ==
            Get(t.Of(kind), k) + if which == kind then Get(Kept(counters, ok, inactive), k) else 0
  {
    PutAddAt(t, Kept(counters, true, inactive), which, kind, k);
  }

  /** What the database does with one update: accept it or not, and which entities it no longer counts. */
  datatype Update = Update(ok: bool, inactive: set<EntityId>)

  /** The three views tables as the flusher updates them. */
  class ViewTables {
    var stored: Totals

    method UpdateViews(kind: Kind, data: seq<Row>, u: Update) returns (accepted: bool)
      modifies this
      ensures accepted == u.ok
      ensures stored == if u.ok then old(stored).Put(kind, ApplyRows(old(stored).Of(kind), data, u.inactive)) else old(stored)
    {
      if u.ok {
        stored := stored.Put(kind, ApplyRows(stored.Of(kind), data, u.inactive));
      }
      accepted := u.ok;
    }

    /** Writes one kind of a batch, skipping an empty one; a failed update leaves the table as it was. */
    method FlushKind(kind: Kind, counters: Counters, u: Update)
      modifies this
      ensures stored == Flushed(old(stored), kind, counters, u.ok, u.inactive)
    {
      if counters != map[] {
        var data := PrepareBatchData(counters);
        PreparedRowsAdd(stored.Of(kind), data, counters, u.inactive);
        var accepted := UpdateViews(kind, data, u);
      }
    }

    /**
     One turn of the flusher loop: each table gains exactly its counters of active entities, or nothing
     if its own update failed.
     */
    method FlushBatch(batch: Totals, update: Kind -> Update)
      modifies this
      ensures forall kind, k :: (
        Get(stored.Of(kind), k) ==
        Get(old(stored).Of(kind), k) + Get(Kept(batch.Of(kind), update(kind).ok, update(kind).inactive), k))
    {
      var c, e, g := update(Community), update(Event), update(Group);
      FlushKind(Community, batch.community, c);
      ghost var first := stored;
      FlushKind(Event, batch.event, e);
      ghost var second := stored;
      FlushKind(Group, batch.group, g);
      hide Get, Flushed, Add, Kept;
      forall kind, k
        ensures Get(stored.Of(kind), k) ==
                Get(old(stored).Of(kind), k) + Get(Kept(batch.Of(kind), update(kind).ok, update(kind).inactive), k)
      {
        FlushedAt(old(stored), Community, batch.community, c.ok, c.inactive, kind, k);
        FlushedAt(first, Event, batch.event, e.ok, e.inactive, kind, k);
        FlushedAt(second, Group, batch.group, g.ok, g.inactive, kind, k);
      }
    }
  }
}
