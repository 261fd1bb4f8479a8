/** The record queue of one store: one entry per unit of work of a source,
    moved through PENDING -> ASSIGNED -> COMPLETED / SKIPPED by the queue
    manager. Every operation is a single transaction in the system, so each
    is modelled as a pure transformer of the whole store. A queue entry's id
    is its position in the store; entries are never deleted. */
module Queue {
  import opened Wrappers

  datatype Status = Pending | Assigned | Completed | Skipped

  /** One `record_queue` row. Times are ticks of an abstract clock. */
  datatype Entry = Entry(
    sourceId: nat,
    recordId: int,
    status: Status,
    priority: int,
    assignedTo: Option<nat>,
    assignedAt: Option<nat>,
    completedAt: Option<nat>,
    createdAt: nat)

  type Store = seq<Entry>

  datatype Error = EntryNotFound(queueId: nat)

  predicate Distinct(ids: seq<int>) {
    forall i, j :: 0 <= i < j < |ids| ==> ids[i] != ids[j]
  }

  /** The unique index on (source_id, record_id). */
  predicate UniquePerSource(q: Store) {
    forall i, j :: 0 <= i < j < |q| && q[i].sourceId == q[j].sourceId ==> q[i].recordId != q[j].recordId
  }

  /** The fields no queue operation ever rewrites. */
  predicate SameWork(a: Entry, b: Entry) {
    a.sourceId == b.sourceId && a.recordId == b.recordId
    && a.priority == b.priority && a.createdAt == b.createdAt
  }

  /** Record ids already queued for `src`. */
  function QueuedRecordIds(q: Store, src: nat): set<int> {
    set i | 0 <= i < |q| && q[i].sourceId == src :: q[i].recordId
  }

  function NewEntry(src: nat, recordId: int, now: nat): Entry {
    Entry(src, recordId, Pending, 0, None, None, None, now)
  }

  /** The table ids not yet queued, in table-id order. */
  function FreshIds(existing: set<int>, ids: seq<int>): (r: seq<int>)
    ensures |r| <= |ids|
    ensures forall x :: x in r <==> x in ids && x !in existing
    ensures Distinct(ids) ==> Distinct(r)
  {
    if ids == [] then []
    else
      var rest := FreshIds(existing, ids[1..]);
      assert forall x :: x in ids <==> x == ids[0] || x in ids[1..];
      if ids[0] in existing then rest else [ids[0]] + rest
  }

  lemma {:induction false} NothingFresh(existing: set<int>, ids: seq<int>)
    requires forall k :: 0 <= k < |ids| ==> ids[k] in existing
    ensures FreshIds(existing, ids) == []
    decreases |ids|
  {
    if ids != [] {
      NothingFresh(existing, ids[1..]);
    }
  }

  /** The entries enqueue creates: one per table id not yet queued. */
  function NewEntries(existing: set<int>, src: nat, ids: seq<int>, now: nat): (r: seq<Entry>)
  {
    var f := FreshIds(existing, ids);
    seq(|f|, k requires 0 <= k < |f| => NewEntry(src, f[k], now))
  }

  datatype Enqueued = Enqueued(store: Store, count: nat)

  /** `enqueue_records`: queue every table id not yet queued for `src` as a
      PENDING entry with priority 0, all stamped with the same insert time;
      the count is the number of new entries. */
  function Enqueue(q: Store, src: nat, tableIds: seq<int>, now: nat): (r: Enqueued)
    ensures |r.store| == |q| + r.count && r.store[..|q|] == q
    ensures forall k :: |q| <= k < |r.store| ==> r.store[k] == NewEntry(src, r.store[k].recordId, now)
    ensures forall id :: (exists k :: |q| <= k < |r.store| && r.store[k].recordId == id)
                         <==> id in tableIds && id !in QueuedRecordIds(q, src)
  {
    var f := FreshIds(QueuedRecordIds(q, src), tableIds);
    var store := q + NewEntries(QueuedRecordIds(q, src), src, tableIds, now);
    assert forall k :: |q| <= k < |store| ==> store[k] == NewEntry(src, f[k - |q|], now);
    assert forall k :: 0 <= k < |f| ==> store[|q| + k].recordId == f[k];
    Enqueued(store, |f|)
  }

  /** A second enqueue of an unchanged table adds nothing and changes nothing. */
  lemma EnqueueIdempotent(q: Store, src: nat, tableIds: seq<int>, t1: nat, t2: nat)
    ensures var once := Enqueue(q, src, tableIds, t1);
            Enqueue(once.store, src, tableIds, t2) == Enqueued(once.store, 0)
  {
    var once := Enqueue(q, src, tableIds, t1).store;
    var existing := QueuedRecordIds(once, src);
    forall k | 0 <= k < |tableIds|
      ensures tableIds[k] in existing
    {
      var id := tableIds[k];
      if id in QueuedRecordIds(q, src) {
        var i :| 0 <= i < |q| && q[i].sourceId == src && q[i].recordId == id;
        assert once[i] == q[i];
      } else {
        var k :| |q| <= k < |once| && once[k].recordId == id;
        assert once[k].sourceId == src;
      }
    }
    NothingFresh(existing, tableIds);
    assert NewEntries(existing, src, tableIds, t2) == [];
    assert once + [] == once;
  }

  /** Enqueue never touches existing entries and keeps (source, record)
      unique, given that table ids are a primary key. */
  lemma EnqueuePreservesUniqueness(q: Store, src: nat, tableIds: seq<int>, now: nat)
    requires UniquePerSource(q) && Distinct(tableIds)
    ensures UniquePerSource(Enqueue(q, src, tableIds, now).store)
  {
    var existing := QueuedRecordIds(q, src);
    var added := NewEntries(existing, src, tableIds, now);
    var store := Enqueue(q, src, tableIds, now).store;
    assert store == q + added;
    forall i, j | 0 <= i < j < |store| && store[i].sourceId == store[j].sourceId
      ensures store[i].recordId != store[j].recordId
    {
      if j >= |q| && i < |q| {
        assert store[i] == q[i] && store[j] == added[j - |q|];
        assert q[i].recordId in existing;
      } else if j >= |q| {
        assert store[i] == added[i - |q|] && store[j] == added[j - |q|];
      }
    }
  }

  /** Set of a sequence's elements. */
  function Elements(ids: seq<int>): set<int> {
    set x | x in ids
  }

  lemma {:induction false} NewEntriesCount(existing: set<int>, src: nat, ids: seq<int>, now: nat)
    requires Distinct(ids)
    ensures |NewEntries(existing, src, ids, now)| == |Elements(ids) - existing|
    decreases |ids|
  {
    if ids != [] {
      NewEntriesCount(existing, src, ids[1..], now);
      var tail := Elements(ids[1..]) - existing;
      assert ids[0] !in ids[1..];
      assert Elements(ids) == {ids[0]} + Elements(ids[1..]);
      if ids[0] in existing {
        assert Elements(ids) - existing == tail;
      } else {
        assert Elements(ids) - existing == {ids[0]} + tail;
        assert ids[0] !in tail;
      }
    }
  }

  /** The returned count is the number of distinct table ids not yet queued. */
  lemma EnqueueCount(q: Store, src: nat, tableIds: seq<int>, now: nat)
    requires Distinct(tableIds)
    ensures Enqueue(q, src, tableIds, now).count == |Elements(tableIds) - QueuedRecordIds(q, src)|
  {
    NewEntriesCount(QueuedRecordIds(q, src), src, tableIds, now);
  }

  // ---------------------------------------------------------------------
  // Reservation

  /** Entry `i` is PENDING work of `src`. */
  predicate Eligible(q: Store, src: nat, i: int) {
    0 <= i < |q| && q[i].sourceId == src && q[i].status == Pending
  }

  /** `ORDER BY priority DESC, created_at ASC`: `a` may be served before `b`. */
  predicate RanksAtLeast(a: Entry, b: Entry) {
    a.priority > b.priority || (a.priority == b.priority && a.createdAt <= b.createdAt)
  }

  /** Entry `i` is a legitimate answer of the reservation query: eligible and
      ranked at least as high as every other eligible entry (ties in both
      keys may go either way). */
  ghost predicate IsNextFor(q: Store, src: nat, i: int) {
    Eligible(q, src, i) && forall j :: Eligible(q, src, j) ==> RanksAtLeast(q[i], q[j])
  }

  /** The best-ranked eligible entry among the first `n`. */
  function PickNext(q: Store, src: nat, n: nat): (r: Option<nat>)
    requires n <= |q|
    ensures r.None? <==> forall j :: 0 <= j < n ==> !Eligible(q, src, j)
    ensures r.Some? ==> r.value < n && Eligible(q, src, r.value)
    ensures r.Some? ==> forall j :: 0 <= j < n && Eligible(q, src, j) ==> RanksAtLeast(q[r.value], q[j])
  {
    if n == 0 then None
    else
      var prev := PickNext(q, src, n - 1);
      if !Eligible(q, src, n - 1) then prev
      else if prev.None? then Some(n - 1)
      else if q[n - 1].priority > q[prev.value].priority
           || (q[n - 1].priority == q[prev.value].priority && q[n - 1].createdAt < q[prev.value].createdAt)
      then Some(n - 1)
      else prev
  }

  /** The state of an entry handed to `employee` at `now`. */
  predicate AssignedCopy(before: Entry, after: Entry, employee: nat, now: nat) {
    SameWork(before, after) && after.completedAt == before.completedAt
    && after.status == Assigned && after.assignedTo == Some(employee) && after.assignedAt == Some(now)
  }

  datatype Reservation = Reservation(store: Store, entry: Option<nat>)

  /** `get_next_record`: hand the best-ranked PENDING entry of `src` to
      `employee`, or report that there is none. */
  function ReserveNext(q: Store, src: nat, employee: nat, now: nat): (r: Reservation)
    ensures |r.store| == |q|
    ensures r.entry.None? <==> forall j :: 0 <= j < |q| ==> !Eligible(q, src, j)
    ensures r.entry.None? ==> r.store == q
    ensures r.entry.Some? ==> IsNextFor(q, src, r.entry.value)
    ensures r.entry.Some? ==> AssignedCopy(q[r.entry.value], r.store[r.entry.value], employee, now)
    ensures r.entry.Some? ==> forall j :: 0 <= j < |q| && j != r.entry.value ==> r.store[j] == q[j]
  {
    match PickNext(q, src, |q|)
    case None => Reservation(q, None)
    case Some(i) =>
      var e := q[i].(status := Assigned, assignedTo := Some(employee), assignedAt := Some(now));
      Reservation(q[i := e], Some(i))
  }

  /** The entry just reserved is never handed out again, to anyone, whatever
      source is asked for next. */
  lemma NoDoubleReservation(q: Store, src: nat, e1: nat, t1: nat, src2: nat, e2: nat, t2: nat)
    requires ReserveNext(q, src, e1, t1).entry.Some?
    ensures var first := ReserveNext(q, src, e1, t1);
            ReserveNext(first.store, src2, e2, t2).entry != first.entry
  {
  }

  /** An entry that strictly outranks every other eligible entry is the one reserved. */
  lemma StrictlyBestIsReserved(q: Store, src: nat, i: nat, employee: nat, now: nat)
    requires Eligible(q, src, i)
    requires forall j :: Eligible(q, src, j) && j != i ==> !RanksAtLeast(q[j], q[i])
    ensures ReserveNext(q, src, employee, now).entry == Some(i)
  {
  }

  // ---------------------------------------------------------------------
  // Completion and skip

  /** `complete_record`: COMPLETED at `now` whatever the previous status;
      the assignment fields stay as they were. */
  function Complete(q: Store, queueId: nat, now: nat): (r: Result<Store, Error>)
    ensures r.Err? <==> queueId >= |q|
    ensures r.Err? ==> r.error == EntryNotFound(queueId)
    ensures r.Ok? ==> |r.value| == |q| && forall j :: 0 <= j < |q| && j != queueId ==> r.value[j] == q[j]
    ensures r.Ok? ==> var before, after := q[queueId], r.value[queueId];
      SameWork(before, after) && after.status == Completed && after.completedAt == Some(now)
      && after.assignedTo == before.assignedTo && after.assignedAt == before.assignedAt
  {
    if queueId >= |q| then Err(EntryNotFound(queueId))
    else Ok(q[queueId := q[queueId].(status := Completed, completedAt := Some(now))])
  }

  /** `skip_record`: SKIPPED whatever the previous status, assignment
      cleared, completion time left as it was. */
  function Skip(q: Store, queueId: nat): (r: Result<Store, Error>)
    ensures r.Err? <==> queueId >= |q|
    ensures r.Err? ==> r.error == EntryNotFound(queueId)
    ensures r.Ok? ==> |r.value| == |q| && forall j :: 0 <= j < |q| && j != queueId ==> r.value[j] == q[j]
    ensures r.Ok? ==> var before, after := q[queueId], r.value[queueId];
      SameWork(before, after) && after.status == Skipped && after.completedAt == before.completedAt
      && after.assignedTo == None && after.assignedAt == None
  {
    if queueId >= |q| then Err(EntryNotFound(queueId))
    else Ok(q[queueId := q[queueId].(status := Skipped, assignedTo := None, assignedAt := None)])
  }

  /** Reserve, complete and skip never break (source, record) uniqueness. */
  lemma UpdatesPreserveUniqueness(q: Store, src: nat, employee: nat, queueId: nat, now: nat)
    requires UniquePerSource(q)
    ensures UniquePerSource(ReserveNext(q, src, employee, now).store)
    ensures Complete(q, queueId, now).Ok? ==> UniquePerSource(Complete(q, queueId, now).value)
    ensures Skip(q, queueId).Ok? ==> UniquePerSource(Skip(q, queueId).value)
  {
    var r := ReserveNext(q, src, employee, now);
    if r.entry.Some? {
      SameWorkUpdateKeepsUnique(q, r.entry.value, r.store[r.entry.value]);
      assert r.store == q[r.entry.value := r.store[r.entry.value]];
    }
    if queueId < |q| {
      var c := Complete(q, queueId, now).value;
      SameWorkUpdateKeepsUnique(q, queueId, c[queueId]);
      assert c == q[queueId := c[queueId]];
      var k := Skip(q, queueId).value;
      SameWorkUpdateKeepsUnique(q, queueId, k[queueId]);
      assert k == q[queueId := k[queueId]];
    }
  }

  /** Rewriting one entry without touching its work keeps the unique index. */
  lemma SameWorkUpdateKeepsUnique(q: Store, i: nat, e: Entry)
    requires i < |q| && SameWork(q[i], e) && UniquePerSource(q)
    ensures UniquePerSource(q[i := e])
  {
    var u := q[i := e];
    forall j, k | 0 <= j < k < |u| && u[j].sourceId == u[k].sourceId
      ensures u[j].recordId != u[k].recordId
    {
      assert SameWork(q[j], u[j]) && SameWork(q[k], u[k]);
    }
  }

  // ---------------------------------------------------------------------
  // Counting

  /** Number of entries of `src` with status `s`. */
  function CountStatus(q: Store, src: nat, s: Status): (r: nat)
    ensures r <= |q|
    ensures r == 0 <==> forall j :: 0 <= j < |q| ==> !(q[j].sourceId == src && q[j].status == s)
  {
    if q == [] then 0
    else (if q[0].sourceId == src && q[0].status == s then 1 else 0) + CountStatus(q[1..], src, s)
  }

  /** Number of entries of `src`. */
  function SourceSize(q: Store, src: nat): nat {
    if q == [] then 0
    else (if q[0].sourceId == src then 1 else 0) + SourceSize(q[1..], src)
  }

  /** `get_queue_depth`: zero exactly when there is nothing to reserve. */
  function Depth(q: Store, src: nat): (r: nat)
    ensures r == 0 <==> forall j :: 0 <= j < |q| ==> !Eligible(q, src, j)
  {
    assert forall j :: 0 <= j < |q| ==> (Eligible(q, src, j) <==> q[j].sourceId == src && q[j].status == Pending);
    CountStatus(q, src, Pending)
  }

  /** Changing one entry moves the count by that entry's contribution only. */
  lemma {:induction false} CountStatusUpdate(q: Store, i: nat, e: Entry, src: nat, s: Status)
    requires i < |q|
    ensures CountStatus(q[i := e], src, s)
            == CountStatus(q, src, s)
               - (if q[i].sourceId == src && q[i].status == s then 1 else 0)
               + (if e.sourceId == src && e.status == s then 1 else 0)
    decreases |q|
  {
    if i == 0 {
      assert q[i := e][1..] == q[1..];
    } else {
      assert q[i := e][1..] == q[1..][i - 1 := e];
      CountStatusUpdate(q[1..], i - 1, e, src, s);
    }
  }

  datatype QueueStats = QueueStats(pendingCount: nat, assignedCount: nat, completedCount: nat, skippedCount: nat, total: nat)

  const NoEntries := QueueStats(0, 0, 0, 0, 0)

  /** Adds one entry of status `s` to the tally. */
  function Bump(c: QueueStats, s: Status): QueueStats {
    match s
    case Pending => c.(pendingCount := c.pendingCount + 1)
    case Assigned => c.(assignedCount := c.assignedCount + 1)
    case Completed => c.(completedCount := c.completedCount + 1)
    case Skipped => c.(skippedCount := c.skippedCount + 1)
  }

  /** The `GROUP BY status` pass: one tally over the store, each status
      starting from zero. */
  function GroupByStatus(q: Store, src: nat): (c: QueueStats)
    ensures c.pendingCount == CountStatus(q, src, Pending)
    ensures c.assignedCount == CountStatus(q, src, Assigned)
    ensures c.completedCount == CountStatus(q, src, Completed)
    ensures c.skippedCount == CountStatus(q, src, Skipped)
    ensures c.pendingCount + c.assignedCount + c.completedCount + c.skippedCount == SourceSize(q, src)
  {
    if q == [] then NoEntries
    else
      var rest := GroupByStatus(q[1..], src);
      if q[0].sourceId == src then Bump(rest, q[0].status) else rest
  }

  /** `get_queue_stats`: every status present (zero when absent), the total
      is their sum and equals the number of entries of the source, and the
      pending count is the queue depth. */
  function Stats(q: Store, src: nat): (r: QueueStats)
    ensures r.total == r.pendingCount + r.assignedCount + r.completedCount + r.skippedCount
    ensures r.total == SourceSize(q, src)
    ensures r.pendingCount == Depth(q, src)
    ensures r.assignedCount == CountStatus(q, src, Assigned)
    ensures r.completedCount == CountStatus(q, src, Completed)
    ensures r.skippedCount == CountStatus(q, src, Skipped)
  {
    var c := GroupByStatus(q, src);
    c.(total := c.pendingCount + c.assignedCount + c.completedCount + c.skippedCount)
  }

  // ---------------------------------------------------------------------
  // Exclusivity

  datatype Round = Round(results: seq<Option<nat>>, store: Store)

  /** A run of reservations against one source, one per caller, each
      committed before the next starts (the serial order the row lock
      imposes on racing callers). */
  function ReserveEach(q: Store, src: nat, employees: seq<nat>, now: nat): (r: Round)
    ensures |r.results| == |employees| && |r.store| == |q|
    decreases |employees|
  {
    if employees == [] then Round([], q)
    else
      var first := ReserveNext(q, src, employees[0], now);
      var rest := ReserveEach(first.store, src, employees[1..], now);
      Round([first.entry] + rest.results, rest.store)
  }

  /** A successful reservation lowers the depth by exactly one. */
  lemma ReserveLowersDepth(q: Store, src: nat, employee: nat, now: nat)
    requires ReserveNext(q, src, employee, now).entry.Some?
    ensures Depth(ReserveNext(q, src, employee, now).store, src) == Depth(q, src) - 1
  {
    var r := ReserveNext(q, src, employee, now);
    var i := r.entry.value;
    assert r.store == q[i := r.store[i]];
    CountStatusUpdate(q, i, r.store[i], src, Pending);
  }

  /** With at least K PENDING entries, K callers receive K distinct entries,
      each one PENDING work of that source beforehand, and the depth drops by K. */
  lemma {:induction false} ExclusiveReservations(q: Store, src: nat, employees: seq<nat>, now: nat)
    requires |employees| <= Depth(q, src)
    ensures var round := ReserveEach(q, src, employees, now);
      && (forall k :: 0 <= k < |employees| ==> round.results[k].Some? && Eligible(q, src, round.results[k].value))
      && (forall k, l :: 0 <= k < l < |employees| ==> round.results[k] != round.results[l])
      && Depth(round.store, src) == Depth(q, src) - |employees|
    decreases |employees|
  {
    if employees != [] {
      var first := ReserveNext(q, src, employees[0], now);
      ReserveLowersDepth(q, src, employees[0], now);
      ExclusiveReservations(first.store, src, employees[1..], now);
      var rest := ReserveEach(first.store, src, employees[1..], now);
      LaterReservationsDiffer(q, src, employees[0], now, rest.results);
      ResultsCons(first.entry, rest.results, q, src);
    }
  }

  /** Entries eligible after reserving entry `i` were eligible before and are not `i`. */
  lemma LaterReservationsDiffer(q: Store, src: nat, employee: nat, now: nat, later: seq<Option<nat>>)
    requires ReserveNext(q, src, employee, now).entry.Some?
    requires forall k :: 0 <= k < |later| ==> later[k].Some? && Eligible(ReserveNext(q, src, employee, now).store, src, later[k].value)
    ensures forall k :: 0 <= k < |later| ==> later[k] != ReserveNext(q, src, employee, now).entry && Eligible(q, src, later[k].value)
  {
    var first := ReserveNext(q, src, employee, now);
    forall k | 0 <= k < |later|
      ensures later[k] != first.entry && Eligible(q, src, later[k].value)
    {
      var j := later[k].value;
      assert first.store[j] == q[j];
    }
  }

  /** A fresh eligible result in front of distinct eligible ones keeps them distinct. */
  lemma ResultsCons(x: Option<nat>, rest: seq<Option<nat>>, q: Store, src: nat)
    requires x.Some? && Eligible(q, src, x.value)
    requires forall k :: 0 <= k < |rest| ==> rest[k].Some? && rest[k] != x && Eligible(q, src, rest[k].value)
    requires forall k, l :: 0 <= k < l < |rest| ==> rest[k] != rest[l]
    ensures var all := [x] + rest;
      && (forall k :: 0 <= k < |all| ==> all[k].Some? && Eligible(q, src, all[k].value))
      && (forall k, l :: 0 <= k < l < |all| ==> all[k] != all[l])
  {
    var all := [x] + rest;
    forall k, l | 0 <= k < l < |all|
      ensures all[k] != all[l]
    {
      assert all[l] == rest[l - 1];
      if k > 0 {
        assert all[k] == rest[k - 1];
      }
    }
    forall k | 0 <= k < |all|
      ensures all[k].Some? && Eligible(q, src, all[k].value)
    {
      if k > 0 {
        assert all[k] == rest[k - 1];
      }
    }
  }

  /** Once K callers have drained K PENDING entries, the next caller gets nothing. */
  lemma DrainedQueueReservesNothing(q: Store, src: nat, employees: seq<nat>, now: nat, late: nat)
    requires |employees| == Depth(q, src)
    ensures var round := ReserveEach(q, src, employees, now);
            ReserveNext(round.store, src, late, now).entry.None?
  {
    ExclusiveReservations(q, src, employees, now);
  }

  // ---------------------------------------------------------------------
  // Worked scenarios

  /** Three PENDING entries of `src`: A (priority 5) created first, then
      B and C (priority 0). */
  function Scenario(src: nat): Store {
    [Entry(src, 1, Pending, 5, None, None, None, 0),
     Entry(src, 2, Pending, 0, None, None, None, 1),
     Entry(src, 3, Pending, 0, None, None, None, 2)]
  }

  /** Entries created in the order A (priority 5), B and C (priority 0) are
      served A, B, C. */
  lemma PriorityThenArrivalOrder(src: nat, e1: nat, e2: nat, e3: nat, now: nat)
    ensures ReserveEach(Scenario(src), src, [e1, e2, e3], now).results == [Some(0), Some(1), Some(2)]
  {
    var q := Scenario(src);
    var q1 := ServeFirst(src, e1, now);
    var q2 := ServeSecond(src, q1, e2, now);
    ServeThird(src, q2, e3, now);
    ReserveEachCons(q2, src, e3, [], now);
    ReserveEachCons(q1, src, e2, [e3], now);
    ReserveEachCons(q, src, e1, [e2, e3], now);
  }

  /** One reservation, then the rest of the round. */
  lemma ReserveEachCons(q: Store, src: nat, e: nat, es: seq<nat>, now: nat)
    ensures var first := ReserveNext(q, src, e, now);
            ReserveEach(q, src, [e] + es, now).results == [first.entry] + ReserveEach(first.store, src, es, now).results
  {
    assert ([e] + es)[1..] == es;
  }

  /** A, the only priority-5 entry, goes first. */
  lemma ServeFirst(src: nat, e: nat, now: nat) returns (q1: Store)
    ensures var r := ReserveNext(Scenario(src), src, e, now);
            r.entry == Some(0) && q1 == r.store
    ensures |q1| == 3 && q1[1] == Scenario(src)[1] && q1[2] == Scenario(src)[2] && !Eligible(q1, src, 0)
  {
    var q := Scenario(src);
    StrictlyBestIsReserved(q, src, 0, e, now);
    q1 := ReserveNext(q, src, e, now).store;
  }

  /** With A served, B is older than C and goes next. */
  lemma ServeSecond(src: nat, q1: Store, e: nat, now: nat) returns (q2: Store)
    requires |q1| == 3 && q1[1] == Scenario(src)[1] && q1[2] == Scenario(src)[2] && !Eligible(q1, src, 0)
    ensures var r := ReserveNext(q1, src, e, now);
            r.entry == Some(1) && q2 == r.store
    ensures |q2| == 3 && q2[2] == Scenario(src)[2] && !Eligible(q2, src, 0) && !Eligible(q2, src, 1)
  {
    StrictlyBestIsReserved(q1, src, 1, e, now);
    q2 := ReserveNext(q1, src, e, now).store;
  }

  /** C is what is left. */
  lemma ServeThird(src: nat, q2: Store, e: nat, now: nat)
    requires |q2| == 3 && q2[2] == Scenario(src)[2] && !Eligible(q2, src, 0) && !Eligible(q2, src, 1)
    ensures ReserveNext(q2, src, e, now).entry == Some(2)
  {
    StrictlyBestIsReserved(q2, src, 2, e, now);
  }
}
