/**
 * The `TailorDB` IndexedDB database (version 2) and the helpers exported
 * around it: single-record reads and writes, clearing, the snapshot
 * replacement used after a server download, the sample data loader and the
 * push of all local records to the backend.
 */
module IndexedDb {
  import opened Wrappers
  import opened JsValues
  import opened KeyOrder
  import opened StoreModel
  import opened SampleData

  /** A cursor over a table: repeatedly takes the least remaining key. */
  method ReadAll(t: Table) returns (rs: seq<Rec>)
    ensures rs == Listing(t)
  {
    var rest := t.Keys;
    ghost var ks: seq<Key> := [];
    rs := [];
    while rest != {}
      invariant Cursor(t, ks, rest, rs)
      decreases |rest|
    {
      LeastExists(rest);
      var k :| IsLeast(k, rest);
      CursorStep(t, ks, rest, rs, k);
      rs := rs + [t[k]];
      ks := ks + [k];
      rest := rest - {k};
    }
    CursorDone(t, ks, rs);
  }

  /** A cursor that has visited the keys `ks`, in order, and returned their records `rs`; `rest` is still to come. */
  ghost predicate Cursor(t: Table, ks: seq<Key>, rest: set<Key>, rs: seq<Rec>) {
    rest <= t.Keys
    && SortedKeys(t.Keys) == ks + SortedKeys(rest)
    && |rs| == |ks|
    && forall i :: 0 <= i < |ks| ==> ks[i] in t && rs[i] == t[ks[i]]
  }

  lemma CursorStep(t: Table, ks: seq<Key>, rest: set<Key>, rs: seq<Rec>, k: Key)
    requires Cursor(t, ks, rest, rs) && IsLeast(k, rest)
    ensures k in t && Cursor(t, ks + [k], rest - {k}, rs + [t[k]])
  {
    var later := SortedKeys(rest - {k});
    SortedKeysFirst(rest, k);
    assert ks + ([k] + later) == (ks + [k]) + later;
    var ks', rs' := ks + [k], rs + [t[k]];
    forall i | 0 <= i < |ks'| ensures ks'[i] in t && rs'[i] == t[ks'[i]] {
      if i < |ks| { assert ks'[i] == ks[i] && rs'[i] == rs[i]; }
    }
  }

  lemma CursorDone(t: Table, ks: seq<Key>, rs: seq<Rec>)
    requires Cursor(t, ks, {}, rs)
    ensures rs == Listing(t)
  {
    assert ks == SortedKeys(t.Keys);
  }

  /**
   * One store's share of `clearAndBulkAdd`: starting from the cleared store,
   * queues the adds in order until an item without a key makes `add` throw.
   */
  method FillStore(items: seq<Rec>, clash0: bool) returns (t: Table, clash: bool, stop: bool)
    ensures Fill(map[], items, clash0) == FillStep(t, clash, stop)
  {
    clash := clash0;
    t := map[];
    var j := 0;
    stop := false;
    while j < |items| && !stop
      invariant 0 <= j <= |items|
      invariant Fill(map[], items, clash0) == if stop then FillStep(t, clash, true) else Fill(t, items[j..], clash)
      decreases |items| - j
    {
      var item := items[j];
      assert items[j..][0] == item && items[j..][1..] == items[j + 1..];
      match KeyOf(item) {
        case None =>
          stop := true;
        case Some(k) =>
          if k in t {
            clash := true;
          } else {
            t := t[k := AsSynced(item)];
          }
      }
      j := j + 1;
    }
  }

  /** After the first `j` records of the listing `ks`, those keys hold marked records and the rest are as they were. */
  ghost predicate MarkedUpTo(t0: Table, t: Table, ks: seq<Key>, j: nat, now: int)
    requires j <= |ks|
  {
    t.Keys == t0.Keys
    && forall k :: k in t0 ==> t[k] == if k in ks[..j] then Marked(t0[k], now) else t0[k]
  }

  /** The `j`-th record of the listing is the one stored under the `j`-th key, which no earlier position repeats. */
  lemma ListedAt(t0: Table, j: nat)
    requires WellKeyed(t0)
    requires j < |SortedKeys(t0.Keys)|
    ensures SortedKeys(t0.Keys)[j] in t0
    ensures SortedKeys(t0.Keys)[j] !in SortedKeys(t0.Keys)[..j]
    ensures Listing(t0)[j] == t0[SortedKeys(t0.Keys)[j]]
    ensures KeyOf(Listing(t0)[j]) == Some(SortedKeys(t0.Keys)[j])
  {
    var ks := SortedKeys(t0.Keys);
    assert ks[j] in t0 by {
      SortedKeysSorted(t0.Keys);
      assert ks[j] in ks;
    }
    assert ks[j] !in ks[..j] by {
      SortedKeysDistinct(t0.Keys);
    }
  }

  /** Writing back the record under the next key of the listing extends the marked prefix by one. */
  lemma MarkStep(t0: Table, t: Table, ks: seq<Key>, j: nat, now: int)
    requires j < |ks| && ks[j] in t0 && ks[j] !in ks[..j]
    requires MarkedUpTo(t0, t, ks, j, now)
    ensures var rec := t0[ks[j]];
      MarkedUpTo(t0, if IsSynced(rec) then t else t[ks[j] := Touched(AsSynced(rec), now)], ks, j + 1, now)
  {
    var k := ks[j];
    var rec := t0[k];
    assert ks[..j + 1] == ks[..j] + [k];
    var t' := if IsSynced(rec) then t else t[k := Touched(AsSynced(rec), now)];
    assert t'[k] == Marked(rec, now);
    forall x | x in t0 ensures t'[x] == if x in ks[..j + 1] then Marked(t0[x], now) else t0[x] {
      if x != k {
        assert (x in ks[..j + 1]) == (x in ks[..j]);
        assert t'[x] == t[x];
      }
    }
  }

  /** Once the whole listing has been written back the table is the reconciled one. */
  lemma MarkDone(t0: Table, t: Table, now: int)
    requires MarkedUpTo(t0, t, SortedKeys(t0.Keys), |SortedKeys(t0.Keys)|, now)
    ensures t == ReconciledTable(t0, now)
  {
    var ks := SortedKeys(t0.Keys);
    assert ks[..|ks|] == ks;
    forall k | k in t0 ensures k in ks {
      SortedKeysSorted(t0.Keys);
    }
    var u := ReconciledTable(t0, now);
    forall k | k in t ensures t[k] == u[k] {
    }
  }

  /**
   * The puts that follow an accepted push, for one store: each record of the
   * listing that is not synced yet is written back as synced and touched.
   */
  method MarkRecords(t0: Table, records: seq<Rec>, now: int) returns (t: Table)
    requires WellKeyed(t0)
    requires records == Listing(t0)
    ensures t == ReconciledTable(t0, now)
    ensures WellKeyed(t)
  {
    ghost var ks := SortedKeys(t0.Keys);
    t := t0;
    var j: nat := 0;
    while j < |records|
      invariant 0 <= j <= |records| == |ks|
      invariant MarkedUpTo(t0, t, ks, j, now)
      decreases |records| - j
    {
      var rec := records[j];
      ListedAt(t0, j);
      MarkStep(t0, t, ks, j, now);
      if !IsSynced(rec) {
        t := t[KeyOf(rec).value := Touched(AsSynced(rec), now)];
      }
      j := j + 1;
    }
    MarkDone(t0, t, now);
    ReconciledTableKeyed(t0, now);
  }

  /** Marking the `i`-th business store advances the partial reconciliation by that store. */
  lemma MarkAllStep(db0: Db, unreadable: set<StoreName>, i: nat, now: int)
    requires forall s: StoreName :: s in db0
    requires i < |BusinessStores|
    ensures var s := BusinessStores[i];
      s in unreadable || Listing(db0[s]) == [] ==>
        PartlyReconciled(db0, unreadable, BusinessStores[..i + 1], now) == PartlyReconciled(db0, unreadable, BusinessStores[..i], now)
    ensures var s := BusinessStores[i];
      s !in unreadable && Listing(db0[s]) != [] ==>
        PartlyReconciled(db0, unreadable, BusinessStores[..i + 1], now)
        == PartlyReconciled(db0, unreadable, BusinessStores[..i], now)[s := ReconciledTable(db0[s], now)]
  {
    var s := BusinessStores[i];
    var before := PartlyReconciled(db0, unreadable, BusinessStores[..i], now);
    BusinessStoresOnce(i);
    assert before[s] == db0[s];
    if s !in unreadable && Listing(db0[s]) == [] {
      ReconciledEmpty(db0[s], now);
    }
    assert BusinessStores[..i + 1] == BusinessStores[..i] + [s];
    PartlyReconciledStep(db0, unreadable, BusinessStores[..i], s, now);
    if s in unreadable || Listing(db0[s]) == [] {
      assert before[s := db0[s]] == before;
    }
  }

  /** One pass of the marking loop: the records read from the `i`-th business store are written back as synced. */
  method MarkNext(db0: Db, payload: Payload, unreadable: set<StoreName>, i: nat, db: Db, now: int) returns (db': Db)
    requires Complete(db0)
    requires payload == Snapshot(db0, unreadable)
    requires i < |BusinessStores|
    requires db == PartlyReconciled(db0, unreadable, BusinessStores[..i], now)
    ensures db' == PartlyReconciled(db0, unreadable, BusinessStores[..i + 1], now)
  {
    var s := BusinessStores[i];
    MarkAllStep(db0, unreadable, i, now);
    SnapshotAt(db0, unreadable, s);
    var records := payload[s];
    if records == [] {
      db' := db;
    } else {
      var t := MarkRecords(db0[s], records, now);
      db' := db[s := t];
    }
  }

  /**
   * The marking after an accepted push, store by store in the order the
   * payload was collected; `payload` is what was read from each store.
   */
  method MarkAll(db0: Db, payload: Payload, unreadable: set<StoreName>, now: int) returns (db: Db)
    requires Complete(db0)
    requires payload == Snapshot(db0, unreadable)
    ensures db == Reconciled(db0, unreadable, now)
  {
    db := db0;
    PartlyReconciledNone(db0, unreadable, now);
    var i := 0;
    while i < |BusinessStores|
      invariant 0 <= i <= |BusinessStores|
      invariant db == PartlyReconciled(db0, unreadable, BusinessStores[..i], now)
    {
      db := MarkNext(db0, payload, unreadable, i, db, now);
      i := i + 1;
    }
    assert BusinessStores[..i] == BusinessStores;
    PartlyReconciledAll(db0, unreadable, now);
  }

  class TailorDB {
    /** The contents of each object store. */
    var stores: Db

    ghost predicate Valid()
      reads this
    {
      Complete(stores)
    }

    /** Opens the database over what an earlier version left behind, running the upgrade. */
    constructor Open(existing: Db)
      requires forall s :: s in existing ==> WellKeyed(existing[s])
      ensures Valid()
      ensures forall s :: s in existing ==> stores[s] == existing[s]
      ensures forall s :: s !in existing ==> stores[s] == map[]
    {
      stores := existing;
      new;
      Upgrade();
    }

    /** `upgrade`: creates each of the eight stores that does not exist yet; existing stores keep their records. */
    method Upgrade()
      requires forall s :: s in stores ==> WellKeyed(stores[s])
      modifies this
      ensures Valid()
      ensures forall s :: s in old(stores) ==> stores[s] == old(stores[s])
      ensures forall s :: s !in old(stores) ==> stores[s] == map[]
    {
      var i := 0;
      while i < |AllStores|
        invariant 0 <= i <= |AllStores|
        invariant forall s :: s in old(stores) ==> s in stores && stores[s] == old(stores[s])
        invariant forall s :: s in stores ==> WellKeyed(stores[s]) && (s in old(stores) || stores[s] == map[])
        invariant forall j :: 0 <= j < i ==> AllStores[j] in stores
      {
        if AllStores[i] !in stores {
          stores := stores[AllStores[i] := map[]];
        }
        i := i + 1;
      }
      forall s: StoreName ensures s in stores {
        assert AllStores[StoreIndex(s)] == s;
      }
    }

    /** `addData`: stamps `createdAt` and `updatedAt`; the key must be present and not taken. */
    method Add(s: StoreName, data: Rec, now: int) returns (r: Outcome<StoreError>)
      requires Valid()
      modifies this
      ensures Valid()
      ensures KeyOf(data).None? ==> r == Fail(InvalidKey) && stores == old(stores)
      ensures KeyOf(data).Some? && KeyOf(data).value in old(stores[s]) ==> r == Fail(DuplicateKey) && stores == old(stores)
      ensures KeyOf(data).Some? && KeyOf(data).value !in old(stores[s]) ==>
        r == Pass && stores == old(stores)[s := old(stores[s])[KeyOf(data).value := Added(data, now)]]
      ensures r == AddWrite(old(stores[s]), data, now).outcome && stores == old(stores)[s := AddWrite(old(stores[s]), data, now).table]
    {
      match KeyOf(data)
      case None =>
        r := Fail(InvalidKey);
      case Some(k) =>
        if k in stores[s] {
          r := Fail(DuplicateKey);
        } else {
          assert KeyOf(Added(data, now)) == Some(k);
          stores := stores[s := stores[s][k := Added(data, now)]];
          r := Pass;
        }
    }

    /**
     * `putData` (and `updateData`, the same operation): stamps `updatedAt`
     * and inserts or replaces the record under its key.
     */
    method Put(s: StoreName, data: Rec, now: int) returns (r: Outcome<StoreError>)
      requires Valid()
      modifies this
      ensures Valid()
      ensures KeyOf(data).None? ==> r == Fail(InvalidKey) && stores == old(stores)
      ensures KeyOf(data).Some? ==> r == Pass && stores == old(stores)[s := old(stores[s])[KeyOf(data).value := Touched(data, now)]]
      ensures r == PutWrite(old(stores[s]), data, now).outcome && stores == old(stores)[s := PutWrite(old(stores[s]), data, now).table]
    {
      match KeyOf(data)
      case None =>
        r := Fail(InvalidKey);
      case Some(k) =>
        assert KeyOf(Touched(data, now)) == Some(k);
        stores := stores[s := stores[s][k := Touched(data, now)]];
        r := Pass;
    }

    /** `getData`: the record stored under `id`, if any. */
    method Get(s: StoreName, id: Key) returns (r: Option<Rec>)
      requires Valid()
      ensures r.Some? <==> id in stores[s]
      ensures r.Some? ==> r.value == stores[s][id] && KeyOf(r.value) == Some(id)
    {
      if id in stores[s] {
        r := Some(stores[s][id]);
      } else {
        r := None;
      }
    }

    /** `getAllData`: the records of the store in ascending key order. */
    method GetAll(s: StoreName) returns (rs: seq<Rec>)
      requires Valid()
      ensures rs == Listing(stores[s])
    {
      rs := ReadAll(stores[s]);
    }

    /** `deleteData`: removes the record under `id`; a missing key is not an error. */
    method Delete(s: StoreName, id: Key)
      requires Valid()
      modifies this
      ensures Valid()
      ensures stores == old(stores)[s := old(stores[s]) - {id}]
    {
      stores := stores[s := stores[s] - {id}];
    }

    /** `clearDB`: empties every store, `users` included. */
    method ClearDB()
      requires Valid()
      modifies this
      ensures Valid()
      ensures forall s :: stores[s] == map[]
    {
      var i := 0;
      while i < |AllStores|
        invariant 0 <= i <= |AllStores|
        invariant Valid()
        invariant forall j :: 0 <= j < i ==> stores[AllStores[j]] == map[]
      {
        stores := stores[AllStores[i] := map[]];
        i := i + 1;
      }
      forall s ensures stores[s] == map[] {
        assert AllStores[StoreIndex(s)] == s;
      }
    }

    /** `clearAllData`: empties the seven business stores; `users` is kept. */
    method ClearAllData()
      requires Valid()
      modifies this
      ensures Valid()
      ensures stores[Users] == old(stores[Users])
      ensures forall s :: s != Users ==> stores[s] == map[]
    {
      var i := 0;
      while i < |BusinessStores|
        invariant 0 <= i <= |BusinessStores|
        invariant Valid()
        invariant stores[Users] == old(stores[Users])
        invariant forall j :: 0 <= j < i ==> stores[BusinessStores[j]] == map[]
      {
        stores := stores[BusinessStores[i] := map[]];
        i := i + 1;
      }
      forall s | s != Users ensures stores[s] == map[] {
        assert BusinessStores[BusinessIndex(s)] == s;
      }
    }

    /**
     * `clearAndBulkAdd`: in one transaction, each store in turn is cleared
     * and `{...item, synced: true}` is added for each of its items; the
     * transaction commits only when no add met a taken key.
     */
    method ClearAndBulkAdd(data: Payload) returns (r: Outcome<StoreError>)
      requires Valid()
      modifies this
      ensures Valid()
      ensures BulkResult(r, stores) == BulkReplace(old(stores), data)
    {
      var work := stores;
      var clash := false;
      var keyless := false;
      var i := 0;
      while i < |AllStores| && !keyless
        invariant 0 <= i <= |AllStores|
        invariant stores == old(stores)
        invariant Complete(work)
        invariant Work(stores, data, AllStores, false)
          == if keyless then BulkState(work, clash, true) else Work(work, data, AllStores[i..], clash)
        decreases |AllStores| - i
      {
        var s := AllStores[i];
        var t, stop;
        t, clash, stop := FillStore(if s in data then data[s] else [], clash);
        assert AllStores[i..][0] == s && AllStores[i..][1..] == AllStores[i + 1..];
        work := work[s := t];
        keyless := stop;
        i := i + 1;
      }
      if keyless {
        r := Fail(InvalidKey);
        if !clash {
          stores := work;
        }
      } else if clash {
        r := Fail(DuplicateKey);
      } else {
        r := Pass;
        stores := work;
      }
    }

    /** Adds each record with its own `addData` request; a failing request does not stop the others. */
    method AddAll(s: StoreName, items: seq<Rec>, now: int)
      requires Valid()
      modifies this
      ensures Valid()
      ensures stores == old(stores)[s := AddEach(old(stores[s]), items, now)]
    {
      var j := 0;
      while j < |items|
        invariant 0 <= j <= |items|
        invariant Valid()
        invariant stores == old(stores)[s := stores[s]]
        invariant AddEach(stores[s], items[j..], now) == AddEach(old(stores[s]), items, now)
      {
        assert items[j..][0] == items[j] && items[j..][1..] == items[j + 1..];
        var _ := Add(s, items[j], now);
        j := j + 1;
      }
    }

    /** Clears the business stores, then adds every record of catalog `c` with its own request. */
    method LoadCatalog(c: Catalog, now: int)
      requires Valid()
      modifies this
      ensures Valid()
      ensures Loads(stores, old(stores), c, now)
    {
      ClearAllData();
      LoadsInTurn(old(stores), stores, c, now);
      AddAll(Families, c.families, now);
      AddAll(Customers, c.customers, now);
      AddAll(Orders, c.orders, now);
      AddAll(Measurements, c.measurements, now);
      AddAll(Templates, c.templates, now);
    }

    /**
     * `loadSampleData(userId)`: clears the business stores, then adds the
     * sample families, customers, orders, measurements and templates.
     */
    method LoadSampleData(userId: Value, now: int)
      requires Valid()
      modifies this
      ensures Valid()
      ensures Loads(stores, old(stores), Samples(userId), now)
    {
      LoadCatalog(Samples(userId), now);
    }

    /**
     * `syncAllToBackend(syncFn)`: collects every record of the business
     * stores, gives up without a function or a connection, sends the
     * payload, and when the reply is accepted marks each record that was not
     * synced as synced. `online` is `navigator.onLine`; `unreadable` names
     * the stores whose `getAll` fails.
     */
    method SyncAllToBackend(transport: Transport, online: bool, unreadable: set<StoreName>, now: int) returns (out: SyncOutcome)
      requires Valid()
      modifies this
      ensures Valid()
      ensures out == PushOutcome(transport, online, Snapshot(old(stores), unreadable))
      ensures stores == if out.Synced? then Reconciled(old(stores), unreadable, now) else old(stores)
    {
      var payload: Payload := map[];
      var i := 0;
      while i < |BusinessStores|
        invariant 0 <= i <= |BusinessStores|
        invariant stores == old(stores)
        invariant forall s :: s in payload <==> s in BusinessStores[..i]
        invariant forall s :: s in payload ==> payload[s] == if s in unreadable then [] else Listing(stores[s])
      {
        var s := BusinessStores[i];
        if s in unreadable {
          payload := payload[s := []];
        } else {
          var all := GetAll(s);
          payload := payload[s := all];
        }
        assert BusinessStores[..i + 1] == BusinessStores[..i] + [s];
        i := i + 1;
      }
      assert BusinessStores[..i] == BusinessStores;
      SnapshotFrom(stores, unreadable, payload);
      match transport
      case NoFunction =>
        out := NoSyncFn(payload);
      case Function(call) =>
        if !online {
          out := Offline(payload);
        } else {
          match call(payload)
          case Threw(e) =>
            out := NetworkError(e);
          case Returned(v) =>
            if Accepted(v) {
              MarkAllSynced(payload, unreadable, now);
              out := Synced(v);
            } else {
              out := SyncFailed(v);
            }
        }
    }

    /** For each business store, puts `{...rec, synced: true, updatedAt}` for each record of the payload not yet synced. */
    method MarkAllSynced(payload: Payload, unreadable: set<StoreName>, now: int)
      requires Valid()
      requires payload == Snapshot(stores, unreadable)
      modifies this
      ensures Valid()
      ensures stores == Reconciled(old(stores), unreadable, now)
    {
      ReconciledComplete(stores, unreadable, now);
      stores := MarkAll(stores, payload, unreadable, now);
    }

  }
}
