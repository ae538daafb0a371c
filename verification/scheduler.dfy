/**
 The expiration scheduler (`SecretScheduler`): the deadline heap plus the
 id index beside it, with the operations that schedule a secret, cancel it
 when it is read, sweep the expired ones at a given time, and rebuild the
 schedule from storage after a restart.

 Go's `indexMap` maps an id to a pointer to the heap item. A pointer is
 modelled by the id it leads to: ids are unique in the heap, so following
 the pointer is `Locate(heap, id)`, and the slot `RemoveSecret` reads is
 the located item's own `index` field. The map itself is therefore its key
 set. The lock, the condition variable and the timer are left out: every
 operation here is one atomic step, and time is an integer `now`.

 Storage is the set of durable rows not yet purged, keyed by id, each with
 its `expires_at`.
 */
module Scheduler {
  import opened SecretHeap

  datatype State = State(heap: seq<Item>, indexMap: set<int>)

  /** Durable rows not yet purged: id to `expires_at`. */
  type Store = map<int, int>

  // ------------------------------------------------------------ invariant

  /** At most one record per id, each present at most once. */
  ghost predicate Distinct(m: multiset<Record>)
  {
    && (forall r :: m[r] <= 1)
    && (forall a, b :: a in m && b in m && a.id == b.id ==> a == b)
  }

  ghost function IdsOf(m: multiset<Record>): set<int>
  {
    set r | r in m :: r.id
  }

  /** The ids present in a heap. */
  ghost function Ids(h: seq<Item>): set<int>
  {
    IdsOf(Contents(h))
  }

  /** The scheduler invariant: a heap with correct slot fields, each id in
      it once, and the index holding exactly the ids in the heap. */
  ghost predicate Valid(s: State)
  {
    && IsHeap(s.heap)
    && Slotted(s.heap)
    && Distinct(Contents(s.heap))
    && s.indexMap == Ids(s.heap)
  }

  // ------------------------------------------------------------ lookups

  /** Membership in the contents is membership of some slot. */
  lemma InContents(h: seq<Item>, r: Record)
    ensures r in Contents(h) <==> exists k :: 0 <= k < |h| && h[k].Rec() == r
  {
    assert r in Contents(h) <==> r in Records(h);
  }

  lemma InIds(h: seq<Item>, id: int)
    ensures id in Ids(h) <==> exists k :: 0 <= k < |h| && h[k].id == id
  {
    if id in Ids(h) {
      var r :| r in Contents(h) && r.id == id;
      InContents(h, r);
    }
    if exists k :: 0 <= k < |h| && h[k].id == id {
      var k :| 0 <= k < |h| && h[k].id == id;
      InContents(h, h[k].Rec());
    }
  }

  /** Dereferencing `indexMap[id]`: the heap item carrying that id. */
  function Locate(h: seq<Item>, id: int): (x: Item)
    requires exists k :: 0 <= k < |h| && h[k].id == id
    ensures x in h && x.id == id
    decreases |h|
  {
    if h[|h| - 1].id == id then h[|h| - 1]
    else
      var front := h[..|h| - 1];
      assert exists k :: 0 <= k < |front| && front[k].id == id by {
        var k :| 0 <= k < |h| && h[k].id == id;
        assert front[k].id == id;
      }
      Locate(front, id)
  }

  /** The deadline the scheduler holds for a scheduled id. */
  ghost function DeadlineOf(s: State, id: int): int
    requires Valid(s) && id in s.indexMap
  {
    InIds(s.heap, id);
    Locate(s.heap, id).expiresAt
  }

  /** The pointer kept for a scheduled id leads to the item whose `index`
      is its true slot, and that item's record is the only one with the id. */
  lemma LocateSlot(s: State, id: int)
    requires Valid(s) && id in s.indexMap
    ensures (InIds(s.heap, id); var x := Locate(s.heap, id);
             0 <= x.index < |s.heap| && s.heap[x.index] == x
             && Record(id, x.expiresAt) in Contents(s.heap))
  {
    InIds(s.heap, id);
    var x := Locate(s.heap, id);
    var k :| 0 <= k < |s.heap| && s.heap[k] == x;
    InContents(s.heap, x.Rec());
  }

  /** A scheduled id has exactly one deadline: the one its record carries. */
  lemma DeadlineIsRecord(s: State, id: int, t: int)
    requires Valid(s) && id in s.indexMap
    ensures Record(id, t) in Contents(s.heap) <==> t == DeadlineOf(s, id)
  {
    LocateSlot(s, id);
  }

  // ------------------------------------------------------------ multisets of records

  lemma AddDistinct(m: multiset<Record>, r: Record)
    requires Distinct(m) && r.id !in IdsOf(m)
    ensures Distinct(m + multiset{r})
    ensures IdsOf(m + multiset{r}) == IdsOf(m) + {r.id}
  {
    var m' := m + multiset{r};
    assert r !in m;
    forall q | q in m'
      ensures q.id in IdsOf(m) + {r.id}
    {
      if q != r {
        assert q in m;
      }
    }
  }

  lemma RemoveDistinct(m: multiset<Record>, m': multiset<Record>, r: Record)
    requires Distinct(m) && m' + multiset{r} == m
    ensures Distinct(m')
    ensures IdsOf(m') == IdsOf(m) - {r.id}
  {
    assert r in m;
    assert m'[r] == 0;
    forall q | q in m'
      ensures q.id != r.id
    {
      assert q in m;
    }
    forall i | i in IdsOf(m) - {r.id}
      ensures i in IdsOf(m')
    {
      var q :| q in m && q.id == i;
      assert q != r;
    }
  }

  // ------------------------------------------------------------ operations

  /** `NewSecretScheduler`: an empty heap and an empty index. */
  function NewScheduler(): (s: State)
    ensures Valid(s) && s.indexMap == {} && |s.heap| == 0
  {
    State([], {})
  }

  /** `AddSecret`: schedule `id` for `expiresAt`; an id that is already
      scheduled keeps its original deadline and nothing changes. */
  method AddSecret(s: State, id: int, expiresAt: int) returns (s': State)
    requires Valid(s)
    ensures Valid(s')
    ensures s'.indexMap == s.indexMap + {id}
    ensures id in s.indexMap ==> s' == s
    ensures id !in s.indexMap ==>
      && Contents(s'.heap) == Contents(s.heap) + multiset{Record(id, expiresAt)}
      && |s'.heap| == |s.heap| + 1
      && DeadlineOf(s', id) == expiresAt
  {
    if id in s.indexMap {
      return s;
    }
    var h := Push(s.heap, Item(id, expiresAt, 0));
    AddDistinct(Contents(s.heap), Record(id, expiresAt));
    s' := State(h, s.indexMap + {id});
    DeadlineIsRecord(s', id, expiresAt);
  }

  /** `RemoveSecret`: cancel `id`, removing its item at the slot the index
      records; an unknown id is ignored. Every other id keeps its deadline. */
  method RemoveSecret(s: State, id: int) returns (s': State)
    requires Valid(s)
    ensures Valid(s')
    ensures s'.indexMap == s.indexMap - {id}
    ensures id !in s.indexMap ==> s' == s
    ensures id in s.indexMap ==>
      && Contents(s'.heap) + multiset{Record(id, DeadlineOf(s, id))} == Contents(s.heap)
      && |s'.heap| == |s.heap| - 1
    ensures forall r: Record :: r.id != id ==> Contents(s'.heap)[r] == Contents(s.heap)[r]
  {
    if id !in s.indexMap {
      return s;
    }
    LocateSlot(s, id);
    InIds(s.heap, id);
    var item := Locate(s.heap, id);
    var h, gone := Remove(s.heap, item.index);
    RemoveDistinct(Contents(s.heap), Contents(h), gone.Rec());
    s' := State(h, s.indexMap - {id});
  }

  /** Storage `purge(id)`: the row is gone; purging a missing id is harmless. */
  function Purge(store: Store, id: int): (r: Store)
    ensures id !in r
    ensures forall k :: k != id ==> (k in r <==> k in store) && (k in r ==> r[k] == store[k])
  {
    store - {id}
  }

  /** The ids of a sequence of records. */
  function IdsIn(rs: seq<Record>): set<int>
  {
    set k | 0 <= k < |rs| :: rs[k].id
  }

  lemma IdsInSnoc(rs: seq<Record>, r: Record)
    ensures IdsIn(rs + [r]) == IdsIn(rs) + {r.id}
  {
    var t := rs + [r];
    assert t[|rs|].id == r.id;
    forall i | i in IdsIn(rs) ensures i in IdsIn(t) {
      var k :| 0 <= k < |rs| && rs[k].id == i;
      assert t[k].id == i;
    }
  }

  /** The sweep in the scheduler loop, at time `now`: while the earliest
      deadline is not after `now`, pop it, drop it from the index and purge
      its row. A purge that fails (ids in `failing`) leaves the row in
      storage, but the item is not rescheduled. */
  method Sweep(s: State, store: Store, now: int, failing: set<int>)
    returns (s': State, store': Store, expired: seq<Record>)
    requires Valid(s)
    ensures Valid(s')
    ensures multiset(expired) + Contents(s'.heap) == Contents(s.heap)
    ensures forall k :: 0 <= k < |expired| ==> expired[k].expiresAt <= now
    ensures forall a, b :: 0 <= a < b < |expired| ==> expired[a].expiresAt <= expired[b].expiresAt
    ensures forall k :: 0 <= k < |s'.heap| ==> now < s'.heap[k].expiresAt
    ensures forall r :: r in Contents(s.heap) && now < r.expiresAt ==> r in Contents(s'.heap)
    ensures s'.indexMap == s.indexMap - IdsIn(expired)
    ensures store' == store - (IdsIn(expired) - failing)
  {
    s', store', expired := s, store, [];
    while |s'.heap| > 0 && !(now < s'.heap[0].expiresAt)
      invariant SweepInv(s, store, now, failing, s', store', expired)
      decreases |s'.heap|
    {
      s', store', expired := ExpireFirst(s, store, now, failing, s', store', expired);
    }
    if |s'.heap| > 0 {
      RootIsMinAll(s'.heap);
    }
    DueRecords(expired, now);
  }

  /** Every record of a sequence whose entries are all due by `now` is due by `now`. */
  lemma DueRecords(expired: seq<Record>, now: int)
    requires forall k :: 0 <= k < |expired| ==> expired[k].expiresAt <= now
    ensures forall r :: r in multiset(expired) ==> r.expiresAt <= now
  {
    forall r | r in multiset(expired)
      ensures r.expiresAt <= now
    {
      assert r in expired;
    }
  }

  /** What holds between pops of a sweep that started from `s0` and `store0`. */
  ghost predicate SweepInv(s0: State, store0: Store, now: int, failing: set<int>,
                           s: State, store: Store, expired: seq<Record>)
  {
    && Valid(s)
    && Drained(Contents(s0.heap), now, Contents(s.heap), expired)
    && s.indexMap == s0.indexMap - IdsIn(expired)
    && store == store0 - (IdsIn(expired) - failing)
  }

  /** `expired` was taken out of `m0`, leaving `m`: in order, each due by
      `now`, and none later than what is left. */
  ghost predicate Drained(m0: multiset<Record>, now: int, m: multiset<Record>, expired: seq<Record>)
  {
    && multiset(expired) + m == m0
    && (forall k :: 0 <= k < |expired| ==> expired[k].expiresAt <= now)
    && (forall a, b :: 0 <= a < b < |expired| ==> expired[a].expiresAt <= expired[b].expiresAt)
    && (|expired| > 0 ==> forall r :: r in m ==> expired[|expired| - 1].expiresAt <= r.expiresAt)
  }

  /** One pass of the sweep loop: pop the earliest item (due by `now`),
      forget its id and purge its row unless that purge fails. */
  method ExpireFirst(ghost s0: State, ghost store0: Store, now: int, failing: set<int>,
                     s: State, store: Store, expired: seq<Record>)
    returns (s': State, store': Store, expired': seq<Record>)
    requires SweepInv(s0, store0, now, failing, s, store, expired)
    requires |s.heap| > 0 && s.heap[0].expiresAt <= now
    ensures SweepInv(s0, store0, now, failing, s', store', expired')
    ensures expired' == expired + [s.heap[0].Rec()]
    ensures |s'.heap| < |s.heap|
  {
    var h, x := PopMin(s.heap);
    PoppedIsMin(s.heap, h, x);
    DrainStep(Contents(s0.heap), now, Contents(s.heap), Contents(h), expired, x.Rec());
    RemoveDistinct(Contents(s.heap), Contents(h), x.Rec());
    IdsInSnoc(expired, x.Rec());
    PurgeStep(store0, store, IdsIn(expired), failing, x.id);
    s' := State(h, s.indexMap - {x.id});
    store' := if x.id in failing then store else Purge(store, x.id);
    expired' := expired + [x.Rec()];
  }

  /** The record popped off the heap was in it and is no later than any
      record left behind. */
  lemma PoppedIsMin(h: seq<Item>, rest: seq<Item>, x: Item)
    requires |h| > 0 && x.Rec() == h[0].Rec()
    requires forall k :: 0 <= k < |h| ==> x.expiresAt <= h[k].expiresAt
    requires Contents(rest) + multiset{x.Rec()} == Contents(h)
    ensures x.Rec() in Contents(h)
    ensures forall q :: q in Contents(rest) ==> x.expiresAt <= q.expiresAt
  {
    InContents(h, x.Rec());
    forall q | q in Contents(rest)
      ensures x.expiresAt <= q.expiresAt
    {
      assert q in Contents(h);
      InContents(h, q);
    }
  }

  /** Taking out the least record `r` of `m`, due by `now`, extends the
      drained prefix. */
  lemma DrainStep(m0: multiset<Record>, now: int, m: multiset<Record>, m': multiset<Record>,
                  expired: seq<Record>, r: Record)
    requires Drained(m0, now, m, expired)
    requires r in m && m' + multiset{r} == m && r.expiresAt <= now
    requires forall q :: q in m' ==> r.expiresAt <= q.expiresAt
    ensures Drained(m0, now, m', expired + [r])
  {
    assert multiset(expired + [r]) == multiset(expired) + multiset{r};
  }

  /** The storage after one more expired id: purged unless its purge fails. */
  lemma PurgeStep(store0: Store, store: Store, gone: set<int>, failing: set<int>, id: int)
    requires store == store0 - (gone - failing)
    ensures (if id in failing then store else Purge(store, id))
         == store0 - ((gone + {id}) - failing)
  {
    if id in failing {
      assert (gone + {id}) - failing == gone - failing;
    } else {
      assert (gone + {id}) - failing == (gone - failing) + {id};
    }
  }

  /** Storage `purgeUpTo(t)` and `listAfter(t)` both come down to the rows
      whose deadline is after t: the rows that survive the purge, and the
      rows the listing returns. */
  function RowsAfter(store: Store, t: int): (r: Store)
    ensures forall id :: id in r <==> id in store && t < store[id]
    ensures forall id :: id in r ==> r[id] == store[id]
  {
    map id | id in store && t < store[id] :: store[id]
  }

  /** The records of the rows with ids in `ids`, each with its deadline. */
  ghost function Listed(rows: Store, ids: set<int>): multiset<Record>
  {
    multiset(set id | id in ids && id in rows :: Record(id, rows[id]))
  }

  /** A record is listed exactly when its id is among `ids` and its
      deadline is the row's. */
  lemma ListedMembers(rows: Store, ids: set<int>, r: Record)
    ensures r in Listed(rows, ids) <==> r.id in ids && r.id in rows && rows[r.id] == r.expiresAt
  {
    if r.id in ids && r.id in rows && rows[r.id] == r.expiresAt {
      assert r == Record(r.id, rows[r.id]);
    }
  }

  /** Listing one more row adds exactly its record. */
  lemma ListedSnoc(rows: Store, ids: set<int>, key: int)
    requires key in rows && key !in ids
    ensures Listed(rows, ids + {key}) == Listed(rows, ids) + multiset{Record(key, rows[key])}
  {
    var x := Record(key, rows[key]);
    var a := set id | id in ids && id in rows :: Record(id, rows[id]);
    var b := set id | id in ids + {key} && id in rows :: Record(id, rows[id]);
    assert b == a + {x};
    assert x !in a;
    assert multiset(a + {x}) == multiset(a) + multiset{x};
  }

  /** Schedule every row of a listing, in whatever order storage returns
      them. Ids already scheduled keep their deadlines; every other row is
      added once, with its own deadline, and nothing else is added. */
  method ScheduleAll(s: State, rows: Store) returns (s': State)
    requires Valid(s)
    ensures Valid(s')
    ensures s'.indexMap == s.indexMap + rows.Keys
    ensures Contents(s'.heap) == Contents(s.heap) + Listed(rows, rows.Keys - s.indexMap)
  {
    s' := s;
    var done: set<int> := {};
    assert done - s.indexMap == {};
    assert Listed(rows, {}) == multiset{};
    while done != rows.Keys
      invariant done <= rows.Keys
      invariant ScheduleInv(s, rows, s', done)
      decreases rows.Keys - done
    {
      var key := Pick(rows.Keys - done);
      s' := ScheduleOne(s, rows, s', done, key);
      done := done + {key};
    }
  }

  /** Some element of a non-empty set: the next row of a listing. */
  method Pick(ids: set<int>) returns (id: int)
    requires ids != {}
    ensures id in ids
  {
    // Dafny needs an explicit witness of non-emptiness before `:|`.
    if forall x :: x !in ids {
      assert false;
    }
    id :| id in ids;
  }

  /** What holds after scheduling the rows with ids in `done`, starting
      from `s0`. */
  ghost predicate ScheduleInv(s0: State, rows: Store, s: State, done: set<int>)
  {
    && Valid(s)
    && Scheduled(s0.indexMap, Contents(s0.heap), rows, s.indexMap, Contents(s.heap), done)
  }

  /** Starting from ids `ids0` and contents `m0`, the rows with ids in
      `done` have been scheduled, giving ids `ids` and contents `m`. */
  ghost predicate Scheduled(ids0: set<int>, m0: multiset<Record>, rows: Store,
                            ids: set<int>, m: multiset<Record>, done: set<int>)
  {
    && ids == ids0 + done
    && m == m0 + Listed(rows, done - ids0)
  }

  /** One pass of the listing loop: `AddSecret` for one more row. */
  method ScheduleOne(ghost s0: State, rows: Store, s: State, ghost done: set<int>, key: int)
    returns (s': State)
    requires ScheduleInv(s0, rows, s, done) && key in rows && key !in done
    ensures ScheduleInv(s0, rows, s', done + {key})
  {
    s' := AddSecret(s, key, rows[key]);
    ListedStep(s0.indexMap, Contents(s0.heap), rows, s.indexMap, Contents(s.heap),
               s'.indexMap, Contents(s'.heap), done, key);
  }

  /** The contents after one more `AddSecret` of a listed row: unchanged
      when the id was scheduled before the load, one record more otherwise. */
  lemma ListedStep(ids0: set<int>, m0: multiset<Record>, rows: Store, ids: set<int>, m: multiset<Record>,
                   ids': set<int>, m': multiset<Record>, done: set<int>, key: int)
    requires Scheduled(ids0, m0, rows, ids, m, done) && key in rows && key !in done
    requires ids' == ids + {key}
    requires key in ids ==> m' == m
    requires key !in ids ==> m' == m + multiset{Record(key, rows[key])}
    ensures Scheduled(ids0, m0, rows, ids', m', done + {key})
  {
    assert key in ids <==> key in ids0;
    if key in ids0 {
      assert (done + {key}) - ids0 == done - ids0;
    } else {
      assert (done + {key}) - ids0 == (done - ids0) + {key};
      ListedSnoc(rows, done - ids0, key);
    }
  }

  /** `LoadPendingSecrets` as written: the purge of rows expired during the
      downtime uses one clock reading (`purgeAt`) and the listing of rows to
      schedule uses a second, later one (`listAt`). A storage error in
      either step is returned and stops the load. */
  method LoadPendingAsWritten(s: State, store: Store, purgeAt: int, listAt: int,
                              purgeFails: bool, listFails: bool)
    returns (ok: bool, s': State, store': Store)
    requires Valid(s)
    ensures Valid(s')
    ensures ok <==> !purgeFails && !listFails
    ensures purgeFails ==> store' == store && s' == s
    ensures !purgeFails ==> store' == RowsAfter(store, purgeAt)
    ensures !ok ==> s' == s
    ensures ok ==> s'.indexMap == s.indexMap + RowsAfter(store', listAt).Keys
    ensures ok ==>
      Contents(s'.heap) == Contents(s.heap) + Listed(RowsAfter(store', listAt), RowsAfter(store', listAt).Keys - s.indexMap)
    ensures ok ==> forall id :: id in store && id !in s.indexMap && purgeAt < store[id] <= listAt ==>
      id in store' && id !in s'.indexMap
  {
    if purgeFails {
      return false, s, store;
    }
    store' := RowsAfter(store, purgeAt);
    if listFails {
      return false, s, store';
    }
    s' := ScheduleAll(s, RowsAfter(store', listAt));
    ok := true;
  }

  /** `LoadPendingSecrets` with a single clock reading `now` for both steps:
      rows expired by `now` are purged and never scheduled, and every row
      that survives is scheduled with its deadline. */
  method LoadPending(s: State, store: Store, now: int, purgeFails: bool, listFails: bool)
    returns (ok: bool, s': State, store': Store)
    requires Valid(s)
    ensures Valid(s')
    ensures ok <==> !purgeFails && !listFails
    ensures purgeFails ==> store' == store && s' == s
    ensures !purgeFails ==> forall id :: id in store' <==> id in store && now < store[id]
    ensures !purgeFails ==> forall id :: id in store' ==> store'[id] == store[id]
    ensures !ok ==> s' == s
    ensures ok ==> s'.indexMap == s.indexMap + store'.Keys
    ensures ok ==> Contents(s'.heap) == Contents(s.heap) + Listed(store', store'.Keys - s.indexMap)
    ensures ok ==> forall id :: id in store' && id !in s.indexMap ==>
      Record(id, store'[id]) in Contents(s'.heap)
    ensures ok ==> forall r :: r in Contents(s'.heap) ==> r in Contents(s.heap) || now < r.expiresAt
  {
    if purgeFails {
      return false, s, store;
    }
    store' := RowsAfter(store, now);
    if listFails {
      return false, s, store';
    }
    var rows := RowsAfter(store', now);
    assert rows == store';
    s' := ScheduleAll(s, rows);
    ok := true;
    forall id | id in store' && id !in s.indexMap
      ensures Record(id, store'[id]) in Contents(s'.heap)
    {
      ListedMembers(rows, rows.Keys - s.indexMap, Record(id, store'[id]));
    }
    forall r | r in Contents(s'.heap)
      ensures r in Contents(s.heap) || now < r.expiresAt
    {
      ListedMembers(rows, rows.Keys - s.indexMap, r);
    }
  }
}
