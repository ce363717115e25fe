/**
 * The value-level meaning of the TailorDB object stores: which stores exist,
 * how a written record is stamped, what `getAll` lists, what a server
 * snapshot does to the stores when it replaces them in one transaction, and
 * how records are marked as synced after a push.
 */
module StoreModel {
  import opened Wrappers
  import opened Text
  import opened JsValues
  import opened KeyOrder

  datatype StoreName = Users | Customers | Families | Orders | Invoices | Payments | Measurements | Templates
  {
    function Name(): string {
      match this
      case Users => "users"
      case Customers => "customers"
      case Families => "families"
      case Orders => "orders"
      case Invoices => "invoices"
      case Payments => "payments"
      case Measurements => "measurements"
      case Templates => "templates"
    }
  }

  /** All eight stores, in the order a server snapshot is written. */
  const AllStores: seq<StoreName> := [Users, Customers, Families, Orders, Invoices, Payments, Measurements, Templates]

  /** The seven business stores, in the order they are cleared, collected and marked synced. */
  const BusinessStores: seq<StoreName> := [Customers, Families, Orders, Payments, Invoices, Measurements, Templates]

  /** Where a store sits in `AllStores`. */
  function StoreIndex(s: StoreName): (i: nat)
    ensures i < |AllStores| && AllStores[i] == s
  {
    match s
    case Users => 0
    case Customers => 1
    case Families => 2
    case Orders => 3
    case Invoices => 4
    case Payments => 5
    case Measurements => 6
    case Templates => 7
  }

  /** Where a business store sits in `BusinessStores`; `users` is not among them. */
  function BusinessIndex(s: StoreName): (i: nat)
    requires s != Users
    ensures i < |BusinessStores| && BusinessStores[i] == s
  {
    match s
    case Customers => 0
    case Families => 1
    case Orders => 2
    case Payments => 3
    case Invoices => 4
    case Measurements => 5
    case Templates => 6
  }

  /** Every store is keyed by `_id`; the model's keys are strings. */
  type Key = string
  type Table = map<Key, Rec>
  type Db = map<StoreName, Table>

  /** Records grouped by store, as sent to or received from the server. */
  type Payload = map<StoreName, seq<Rec>>

  /** Why a write request fails: a record without a usable `_id`, or an `_id` already taken. */
  datatype StoreError = InvalidKey | DuplicateKey

  /** Each record sits under its own `_id`. */
  predicate WellKeyed(t: Table) {
    forall k :: k in t ==> KeyOf(t[k]) == Some(k)
  }

  /** The database after the upgrade: every store exists and is well keyed. */
  predicate Complete(db: Db) {
    forall s: StoreName :: s in db && WellKeyed(db[s])
  }

  predicate AllSynced(t: Table) {
    forall k :: k in t ==> IsSynced(t[k])
  }

  /** `{...data, createdAt: new Date(), updatedAt: new Date()}` */
  function Added(data: Rec, now: int): (r: Rec)
    ensures Get(r, "createdAt") == Date(now) && Get(r, "updatedAt") == Date(now)
    ensures forall f :: f != "createdAt" && f != "updatedAt" ==> Get(r, f) == Get(data, f)
  {
    data["createdAt" := Date(now)]["updatedAt" := Date(now)]
  }

  /** `{...data, updatedAt: new Date()}`: `createdAt` and every other field are kept. */
  function Touched(data: Rec, now: int): (r: Rec)
    ensures Get(r, "updatedAt") == Date(now)
    ensures forall f :: f != "updatedAt" ==> Get(r, f) == Get(data, f)
  {
    data["updatedAt" := Date(now)]
  }

  /** `{...item, synced: true}` */
  function AsSynced(item: Rec): (r: Rec)
    ensures IsSynced(r)
    ensures forall f :: f != "synced" ==> Get(r, f) == Get(item, f)
  {
    item["synced" := Bool(true)]
  }

  /* --------------------------------------------------------- single writes */

  /** A single write request: how it settled and the table it leaves. */
  datatype Write = Write(outcome: Outcome<StoreError>, table: Table)

  /** `addData(data)`: a missing key or a taken key fails and leaves the table as it was. */
  function AddWrite(t: Table, data: Rec, now: int): Write {
    match KeyOf(data)
    case None => Write(Fail(InvalidKey), t)
    case Some(k) =>
      if k in t then Write(Fail(DuplicateKey), t)
      else Write(Pass, t[k := Added(data, now)])
  }

  /** Once a record is added, a second record under the same key is refused. */
  lemma AddWriteTwice(t: Table, a: Rec, b: Rec, now: int, later: int)
    requires KeyOf(a).Some? && KeyOf(b) == KeyOf(a)
    requires AddWrite(t, a, now).outcome.Pass?
    ensures AddWrite(AddWrite(t, a, now).table, b, later) == Write(Fail(DuplicateKey), AddWrite(t, a, now).table)
  {
  }

  /** `putData(data)`: inserts or replaces the record under its key; only a missing key fails. */
  function PutWrite(t: Table, data: Rec, now: int): Write {
    match KeyOf(data)
    case None => Write(Fail(InvalidKey), t)
    case Some(k) => Write(Pass, t[k := Touched(data, now)])
  }

  /** The id a record created on this device gets: `local-${Date.now()}`. */
  function LocalId(now: nat): Value {
    Str("local-" + NatToString(now))
  }

  /* ---------------------------------------------------------------- getAll */

  /** `getAll`: the records of a store in ascending key order. */
  ghost function Listing(t: Table): (rs: seq<Rec>)
    ensures |rs| == |t|
    ensures forall i :: 0 <= i < |rs| ==> SortedKeys(t.Keys)[i] in t && rs[i] == t[SortedKeys(t.Keys)[i]]
  {
    var ks := SortedKeys(t.Keys);
    SortedKeysMembers(t.Keys);
    assert |t.Keys| == |t|;
    seq(|ks|, i requires 0 <= i < |ks| => t[ks[i]])
  }

  /** `getAll` returns every record of the store, each once, and nothing else, ordered by `_id`. */
  lemma ListingExact(t: Table)
    requires WellKeyed(t)
    ensures forall k :: k in t ==> t[k] in Listing(t)
    ensures forall r :: r in Listing(t) ==> KeyOf(r).Some? && KeyOf(r).value in t && t[KeyOf(r).value] == r
    ensures forall i, j :: 0 <= i < j < |Listing(t)| ==> KeyLt(KeyOf(Listing(t)[i]).value, KeyOf(Listing(t)[j]).value)
  {
    var ks := SortedKeys(t.Keys);
    var rs := Listing(t);
    SortedKeysSorted(t.Keys);
    forall k | k in t ensures t[k] in rs {
      var i :| 0 <= i < |ks| && ks[i] == k;
      assert rs[i] == t[k];
    }
  }

  /* ------------------------------------------------------ independent adds */

  /**
   * Each record added by its own `addData` request, in turn: a request that
   * fails (no key, or a key already taken) leaves the table as it was and
   * the others still go through.
   */
  function AddEach(t: Table, items: seq<Rec>, now: int): Table
    decreases |items|
  {
    if items == [] then t
    else
      match KeyOf(items[0])
      case None => AddEach(t, items[1..], now)
      case Some(k) =>
        if k in t then AddEach(t, items[1..], now)
        else AddEach(t[k := Added(items[0], now)], items[1..], now)
  }

  /** Independent adds never drop or change a stored record, and keep every record under its own key. */
  lemma {:induction false} AddEachKeeps(t: Table, items: seq<Rec>, now: int)
    ensures t.Keys <= AddEach(t, items, now).Keys
    ensures forall k :: k in t ==> AddEach(t, items, now)[k] == t[k]
    ensures WellKeyed(t) ==> WellKeyed(AddEach(t, items, now))
    decreases |items|
  {
    if items != [] {
      match KeyOf(items[0])
      case None => AddEachKeeps(t, items[1..], now);
      case Some(k) =>
        if k in t {
          AddEachKeeps(t, items[1..], now);
        } else {
          assert KeyOf(Added(items[0], now)) == Some(k);
          AddEachKeeps(t[k := Added(items[0], now)], items[1..], now);
        }
    }
  }

  /** How a record is written on its way into a store: stamped by `add` with both dates, or copied as synced from a snapshot. */
  datatype Stamp = AddedAt(now: int) | SyncedCopy

  function Apply(st: Stamp, r: Rec): Rec {
    match st
    case AddedAt(now) => Added(r, now)
    case SyncedCopy => AsSynced(r)
  }

  /** The keys of `t` are exactly the keys of the items. */
  ghost predicate KeysAre(t: Table, items: seq<Rec>) {
    forall k :: k in t <==> exists i :: 0 <= i < |items| && KeyOf(items[i]) == Some(k)
  }

  /** Each item is stored under its key, written as `st` says. */
  ghost predicate ValuesAre(t: Table, items: seq<Rec>, st: Stamp)
    requires forall i :: 0 <= i < |items| ==> KeyOf(items[i]).Some?
  {
    forall i :: 0 <= i < |items| ==> KeyOf(items[i]).value in t && t[KeyOf(items[i]).value] == Apply(st, items[i])
  }

  /** `t` holds exactly the items, each written as `st` says, under their keys. */
  ghost predicate HoldsExactly(t: Table, items: seq<Rec>, st: Stamp)
    requires forall i :: 0 <= i < |items| ==> KeyOf(items[i]).Some?
  {
    KeysAre(t, items) && ValuesAre(t, items, st)
  }

  /** A key not yet in `t` and not among the base items. */
  predicate FreshFor(t: Table, base: seq<Rec>, k: Key) {
    k !in t && forall i :: 0 <= i < |base| ==> KeyOf(base[i]) != Some(k)
  }

  lemma FreshStep(t: Table, base: seq<Rec>, item: Rec)
    requires KeyedDistinct(base + [item])
    requires KeysAre(t, base)
    ensures KeyOf(item).Some? && FreshFor(t, base, KeyOf(item).value)
  {
    var base' := base + [item];
    assert base'[|base|] == item;
    var k := KeyOf(item).value;
    forall i | 0 <= i < |base| ensures KeyOf(base[i]) != Some(k) {
      assert base'[i] == base[i];
    }
  }

  lemma KeysAreStep(t: Table, base: seq<Rec>, item: Rec, r: Rec)
    requires KeyOf(item).Some? && KeysAre(t, base)
    ensures KeysAre(t[KeyOf(item).value := r], base + [item])
  {
    var base' := base + [item];
    var t' := t[KeyOf(item).value := r];
    forall k' ensures k' in t' <==> exists i :: 0 <= i < |base'| && KeyOf(base'[i]) == Some(k') {
      if k' in t && k' != KeyOf(item).value {
        var i :| 0 <= i < |base| && KeyOf(base[i]) == Some(k');
        assert base'[i] == base[i];
      }
      if k' == KeyOf(item).value {
        assert base'[|base|] == item;
      }
      if exists i :: 0 <= i < |base'| && KeyOf(base'[i]) == Some(k') {
        var i :| 0 <= i < |base'| && KeyOf(base'[i]) == Some(k');
        if i < |base| { assert base'[i] == base[i]; }
      }
    }
  }

  lemma ValuesAreStep(t: Table, base: seq<Rec>, item: Rec, st: Stamp)
    requires forall i :: 0 <= i < |base| ==> KeyOf(base[i]).Some?
    requires KeyOf(item).Some? && FreshFor(t, base, KeyOf(item).value)
    requires ValuesAre(t, base, st)
    ensures ValuesAre(t[KeyOf(item).value := Apply(st, item)], base + [item], st)
  {
    var base' := base + [item];
    var t' := t[KeyOf(item).value := Apply(st, item)];
    forall i | 0 <= i < |base'| ensures KeyOf(base'[i]).value in t' && t'[KeyOf(base'[i]).value] == Apply(st, base'[i]) {
      if i < |base| {
        assert base'[i] == base[i];
      }
    }
  }

  /** Adding one more item with a fresh key keeps the store holding exactly the items so far. */
  lemma HoldsExactlyStep(t: Table, base: seq<Rec>, item: Rec, st: Stamp)
    requires KeyedDistinct(base + [item])
    requires forall i :: 0 <= i < |base| ==> KeyOf(base[i]).Some?
    requires HoldsExactly(t, base, st)
    ensures KeyOf(item).Some? && KeyOf(item).value !in t
    ensures HoldsExactly(t[KeyOf(item).value := Apply(st, item)], base + [item], st)
  {
    FreshStep(t, base, item);
    KeysAreStep(t, base, item, Apply(st, item));
    ValuesAreStep(t, base, item, st);
  }

  /** Records with distinct keys added to a store that holds none of them all go in, stamped. */
  lemma {:induction false} AddEachFresh(t: Table, items: seq<Rec>, base: seq<Rec>, now: int)
    requires KeyedDistinct(base + items)
    requires forall i :: 0 <= i < |base| ==> KeyOf(base[i]).Some?
    requires HoldsExactly(t, base, AddedAt(now))
    ensures HoldsExactly(AddEach(t, items, now), base + items, AddedAt(now))
    decreases |items|
  {
    if items == [] {
      assert base + items == base;
    } else {
      var all := base + items;
      var base' := base + [items[0]];
      assert base' + items[1..] == all;
      assert KeyedDistinct(base') by {
        forall i | 0 <= i < |base'| ensures base'[i] == all[i] { }
      }
      HoldsExactlyStep(t, base, items[0], AddedAt(now));
      AddEachFresh(t[KeyOf(items[0]).value := Added(items[0], now)], items[1..], base', now);
    }
  }

  /** Records with distinct keys added to an empty store all go in, stamped, and nothing else does. */
  lemma AddEachIntoEmpty(items: seq<Rec>, now: int)
    requires KeyedDistinct(items)
    ensures HoldsExactly(AddEach(map[], items, now), items, AddedAt(now))
  {
    assert [] + items == items;
    AddEachFresh(map[], items, [], now);
  }

  /* ------------------------------------------------------- clearAndBulkAdd */

  /** `dataFromServer[storeName] || []` */
  function Items(data: Payload, s: StoreName): seq<Rec> {
    if s in data then data[s] else []
  }

  /**
   * The state of one store while the adds of a snapshot are queued:
   * `clash` once some add has met a taken key (the request fails and the
   * transaction will abort), `keyless` when an item without a usable key
   * made `add` throw, which ends the loop.
   */
  datatype FillStep = FillStep(table: Table, clash: bool, keyless: bool)

  /** Queues `store.add({...item, synced: true})` for each item in turn. */
  function Fill(t: Table, items: seq<Rec>, clash: bool): (f: FillStep)
    ensures clash ==> f.clash
    ensures t.Keys <= f.table.Keys
    ensures WellKeyed(t) ==> WellKeyed(f.table)
    ensures AllSynced(t) ==> AllSynced(f.table)
    decreases |items|
  {
    if items == [] then FillStep(t, clash, false)
    else
      match KeyOf(items[0])
      case None => FillStep(t, clash, true)
      case Some(k) =>
        if k in t then Fill(t, items[1..], true)
        else
          assert KeyOf(AsSynced(items[0])) == Some(k);
          Fill(t[k := AsSynced(items[0])], items[1..], clash)
  }

  /** The whole database while the stores in `todo` are still to be cleared and refilled. */
  datatype BulkState = BulkState(db: Db, clash: bool, keyless: bool)

  function Work(db: Db, data: Payload, todo: seq<StoreName>, clash: bool): BulkState
    decreases |todo|
  {
    if todo == [] then BulkState(db, clash, false)
    else
      var f := Fill(map[], Items(data, todo[0]), clash);
      var db' := db[todo[0] := f.table];
      if f.keyless then BulkState(db', f.clash, true)
      else Work(db', data, todo[1..], f.clash)
  }

  datatype BulkResult = BulkResult(outcome: Outcome<StoreError>, db: Db)

  /**
   * `clearAndBulkAdd`: one transaction over all eight stores. A taken key
   * aborts it and every store is rolled back; an item without a key ends the
   * loop with an error, and what was queued before it still commits.
   */
  function BulkReplace(db: Db, data: Payload): BulkResult {
    var w := Work(db, data, AllStores, false);
    if w.keyless then BulkResult(Fail(InvalidKey), if w.clash then db else w.db)
    else if w.clash then BulkResult(Fail(DuplicateKey), db)
    else BulkResult(Pass, w.db)
  }

  /** Every item has a string `_id` and no two items of the list share one. */
  predicate KeyedDistinct(items: seq<Rec>) {
    (forall i :: 0 <= i < |items| ==> KeyOf(items[i]).Some?)
    && (forall i, j :: 0 <= i < j < |items| ==> KeyOf(items[i]) != KeyOf(items[j]))
  }

  /** Keyed items with distinct keys, none already stored, all go in as synced copies without a clash. */
  lemma {:induction false} FillFresh(t: Table, items: seq<Rec>, base: seq<Rec>)
    requires KeyedDistinct(base + items)
    requires forall i :: 0 <= i < |base| ==> KeyOf(base[i]).Some?
    requires HoldsExactly(t, base, SyncedCopy)
    ensures !Fill(t, items, false).clash && !Fill(t, items, false).keyless
    ensures HoldsExactly(Fill(t, items, false).table, base + items, SyncedCopy)
    decreases |items|
  {
    var all := base + items;
    if items == [] {
      assert all == base;
    } else {
      var base' := base + [items[0]];
      assert base' + items[1..] == all;
      assert KeyedDistinct(base') by {
        forall i | 0 <= i < |base'| ensures base'[i] == all[i] { }
      }
      HoldsExactlyStep(t, base, items[0], SyncedCopy);
      FillFresh(t[KeyOf(items[0]).value := AsSynced(items[0])], items[1..], base');
    }
  }

  /** Once an item's key is in the table, a later item with the same key clashes. */
  lemma {:induction false} FillClashes(t: Table, items: seq<Rec>, clash: bool, j: nat)
    requires forall i :: 0 <= i < |items| ==> KeyOf(items[i]).Some?
    requires j < |items| && KeyOf(items[j]).value in t
    ensures Fill(t, items, clash).clash && !Fill(t, items, clash).keyless
    decreases |items|
  {
    var k := KeyOf(items[0]).value;
    var t' := if k in t then t else t[k := AsSynced(items[0])];
    if j > 0 {
      FillClashes(t', items[1..], clash || k in t, j - 1);
    } else {
      FillNoKeyless(t', items[1..], true);
    }
  }

  lemma {:induction false} FillNoKeyless(t: Table, items: seq<Rec>, clash: bool)
    requires forall i :: 0 <= i < |items| ==> KeyOf(items[i]).Some?
    ensures !Fill(t, items, clash).keyless
    decreases |items|
  {
    if items != [] {
      var k := KeyOf(items[0]).value;
      FillNoKeyless(if k in t then t else t[k := AsSynced(items[0])], items[1..], clash || k in t);
    }
  }

  /** Two items of one list sharing an `_id` make the fill clash. */
  lemma {:induction false} FillDuplicate(t: Table, items: seq<Rec>, clash: bool, i: nat, j: nat)
    requires forall n :: 0 <= n < |items| ==> KeyOf(items[n]).Some?
    requires i < j < |items| && KeyOf(items[i]) == KeyOf(items[j])
    ensures Fill(t, items, clash).clash && !Fill(t, items, clash).keyless
    decreases |items|
  {
    var k := KeyOf(items[0]).value;
    var t' := if k in t then t else t[k := AsSynced(items[0])];
    if i > 0 {
      FillDuplicate(t', items[1..], clash || k in t, i - 1, j - 1);
    } else {
      FillClashes(t', items[1..], clash || k in t, j - 1);
    }
  }

  /** A snapshot whose every store list is keyed and free of duplicates. */
  predicate ValidSnapshot(data: Payload) {
    forall s :: KeyedDistinct(Items(data, s))
  }

  lemma {:induction false} WorkValid(db: Db, data: Payload, todo: seq<StoreName>)
    requires ValidSnapshot(data)
    ensures !Work(db, data, todo, false).clash && !Work(db, data, todo, false).keyless
    ensures forall s :: s in todo ==> s in Work(db, data, todo, false).db && HoldsExactly(Work(db, data, todo, false).db[s], Items(data, s), SyncedCopy)
    ensures forall s :: s !in todo && s in db ==> s in Work(db, data, todo, false).db && Work(db, data, todo, false).db[s] == db[s]
    decreases |todo|
  {
    if todo != [] {
      var items := Items(data, todo[0]);
      assert [] + items == items;
      FillFresh(map[], items, []);
      var db' := db[todo[0] := Fill(map[], items, false).table];
      WorkValid(db', data, todo[1..]);
      var w := Work(db', data, todo[1..], false);
      forall s | s in todo ensures s in w.db && HoldsExactly(w.db[s], Items(data, s), SyncedCopy) {
        if s != todo[0] { assert s in todo[1..]; }
        else if s in todo[1..] { }
      }
    }
  }

  /**
   * A snapshot with a key on every item and no duplicate within a store
   * replaces all eight stores: each then holds exactly its items, marked synced.
   */
  lemma BulkReplaceValid(db: Db, data: Payload, s: StoreName)
    requires ValidSnapshot(data)
    ensures BulkReplace(db, data).outcome == Pass
    ensures s in BulkReplace(db, data).db && HoldsExactly(BulkReplace(db, data).db[s], Items(data, s), SyncedCopy)
  {
    WorkValid(db, data, AllStores);
    assert s in AllStores;
  }

  /** An empty snapshot (`{}`) empties every store, `users` included. */
  lemma BulkReplaceEmpty(db: Db)
    ensures BulkReplace(db, map[]).outcome == Pass
    ensures forall s :: s in BulkReplace(db, map[]).db && BulkReplace(db, map[]).db[s] == map[]
  {
    var r := BulkReplace(db, map[]);
    forall s ensures s in r.db && r.db[s] == map[] {
      BulkReplaceValid(db, map[], s);
      assert Items(map[], s) == [];
      assert forall k :: k !in r.db[s];
    }
  }

  lemma {:induction false} WorkClash(db: Db, data: Payload, todo: seq<StoreName>, clash: bool, n: nat)
    requires forall s, i :: 0 <= i < |Items(data, s)| ==> KeyOf(Items(data, s)[i]).Some?
    requires clash || (n < |todo| && !KeyedDistinct(Items(data, todo[n])))
    ensures Work(db, data, todo, clash).clash && !Work(db, data, todo, clash).keyless
    decreases |todo|
  {
    if todo != [] {
      var items := Items(data, todo[0]);
      FillNoKeyless(map[], items, clash);
      var f := Fill(map[], items, clash);
      if !clash && n == 0 {
        var i, j :| 0 <= i < j < |items| && KeyOf(items[i]) == KeyOf(items[j]);
        FillDuplicate(map[], items, false, i, j);
      }
      WorkClash(db[todo[0] := f.table], data, todo[1..], f.clash, if n == 0 then 0 else n - 1);
    }
  }

  /**
   * With a key on every item, a duplicate `_id` within any store aborts the
   * transaction: the call fails and no store changes.
   */
  lemma BulkReplaceDuplicate(db: Db, data: Payload, s: StoreName)
    requires forall s, i :: 0 <= i < |Items(data, s)| ==> KeyOf(Items(data, s)[i]).Some?
    requires !KeyedDistinct(Items(data, s))
    ensures BulkReplace(db, data) == BulkResult(Fail(DuplicateKey), db)
  {
    var n :| 0 <= n < |AllStores| && AllStores[n] == s by {
      assert s in AllStores;
    }
    WorkClash(db, data, AllStores, false, n);
  }

  lemma {:induction false} WorkSynced(db: Db, data: Payload, todo: seq<StoreName>, clash: bool)
    ensures db.Keys <= Work(db, data, todo, clash).db.Keys
    ensures forall s :: s in db ==> Work(db, data, todo, clash).db[s] == db[s] || AllSynced(Work(db, data, todo, clash).db[s])
    decreases |todo|
  {
    if todo != [] {
      var f := Fill(map[], Items(data, todo[0]), clash);
      var db' := db[todo[0] := f.table];
      assert AllSynced(db'[todo[0]]);
      WorkSynced(db', data, todo[1..], f.clash);
      var w := Work(db, data, todo, clash);
      forall s | s in db ensures w.db[s] == db[s] || AllSynced(w.db[s]) {
        if s == todo[0] && !f.keyless {
          assert w.db[s] == db'[s] || AllSynced(w.db[s]);
        }
      }
    }
  }

  /**
   * Whatever the snapshot, every store that the call changes holds only
   * records marked synced: server data is never taken for local edits.
   */
  lemma BulkReplaceSynced(db: Db, data: Payload)
    ensures db.Keys <= BulkReplace(db, data).db.Keys
    ensures forall s :: s in db ==> BulkReplace(db, data).db[s] == db[s] || AllSynced(BulkReplace(db, data).db[s])
  {
    WorkSynced(db, data, AllStores, false);
  }

  /* --------------------------------------------------------- sync to backend */

  /** The payload a push sends: `getAll` of each business store; a store that cannot be read sends `[]`. */
  ghost function Snapshot(db: Db, unreadable: set<StoreName>): (p: Payload)
    requires forall s: StoreName :: s in db
    ensures p.Keys == set s | s in BusinessStores
  {
    map s | s in BusinessStores :: if s in unreadable then [] else Listing(db[s])
  }

  /** A payload built store by store as `getAll` (or `[]`) is the snapshot. */
  lemma SnapshotFrom(db: Db, unreadable: set<StoreName>, payload: Payload)
    requires forall s: StoreName :: s in db
    requires forall s :: s in payload <==> s in BusinessStores
    requires forall s :: s in payload ==> payload[s] == if s in unreadable then [] else Listing(db[s])
    ensures payload == Snapshot(db, unreadable)
  {
  }

  lemma SnapshotAt(db: Db, unreadable: set<StoreName>, s: StoreName)
    requires forall s: StoreName :: s in db
    requires s != Users
    ensures s in Snapshot(db, unreadable)
    ensures Snapshot(db, unreadable)[s] == if s in unreadable then [] else Listing(db[s])
  {
    assert BusinessStores[BusinessIndex(s)] == s;
  }

  /** How a call of the injected `syncFn` ends: it throws, or it returns a reply. */
  datatype Reply = Threw(error: Value) | Returned(result: Value)

  /** The `syncFn` argument: missing (or not a function), or a function of the payload. */
  datatype Transport = NoFunction | Function(call: Payload -> Reply)

  /** The object `syncAllToBackend` resolves to. */
  datatype SyncOutcome =
    | NoSyncFn(unsynced: Payload)
    | Offline(unsynced: Payload)
    | Synced(result: Value)
    | SyncFailed(result: Value)
    | NetworkError(error: Value)
  {
    /** The `success` field. */
    predicate Success() {
      Synced?
    }

    /** The `reason` field of a failure. */
    function Reason(): string
      requires !Synced?
    {
      match this
      case NoSyncFn(_) => "no-sync-fn"
      case Offline(_) => "offline"
      case SyncFailed(_) => "sync-failed"
      case NetworkError(_) => "network-error"
    }
  }


  /**
   * The outcome of a push of `payload`: no function, then offline, are
   * checked before anything is sent; a throw is a network error; a reply
   * counts only when `Accepted`.
   */
  function PushOutcome(transport: Transport, online: bool, payload: Payload): (o: SyncOutcome)
    ensures o.NoSyncFn? <==> transport.NoFunction?
    ensures o.Offline? <==> transport.Function? && !online
    ensures (o.NoSyncFn? || o.Offline?) ==> o.unsynced == payload
    ensures o.Synced? <==> transport.Function? && online && transport.call(payload).Returned? && Accepted(transport.call(payload).result)
  {
    match transport
    case NoFunction => NoSyncFn(payload)
    case Function(call) =>
      if !online then Offline(payload)
      else
        match call(payload)
        case Threw(e) => NetworkError(e)
        case Returned(v) => if Accepted(v) then Synced(v) else SyncFailed(v)
  }

  /** What the server's reply must look like for the push to count: `result && (result.success || result.message)`. */
  predicate Accepted(result: Value) {
    Truthy(result) && (Truthy(Field(result, "success")) || Truthy(Field(result, "message")))
  }

  /** `{...rec, synced: true, updatedAt: new Date()}` for a record not yet synced; a synced one is skipped. */
  function Marked(r: Rec, now: int): (m: Rec)
    ensures IsSynced(m)
    ensures forall f :: f != "synced" && f != "updatedAt" ==> Get(m, f) == Get(r, f)
    ensures IsSynced(r) ==> m == r
    ensures !IsSynced(r) ==> Get(m, "updatedAt") == Date(now)
  {
    if IsSynced(r) then r else Touched(AsSynced(r), now)
  }

  /** Every record of a store after the push has been accepted. */
  function ReconciledTable(t: Table, now: int): (u: Table)
    ensures u.Keys == t.Keys
    ensures forall k :: k in t ==> u[k] == Marked(t[k], now)
  {
    map k | k in t :: Marked(t[k], now)
  }

  /** Reconciling a store keeps every record under its own key. */
  lemma ReconciledTableKeyed(t: Table, now: int)
    requires WellKeyed(t)
    ensures WellKeyed(ReconciledTable(t, now))
  {
    var u := ReconciledTable(t, now);
    forall k | k in u ensures KeyOf(u[k]) == Some(k) {
      assert Get(u[k], "_id") == Get(t[k], "_id");
    }
  }

  /** An empty listing means an empty store, which reconciliation leaves as it is. */
  lemma ReconciledEmpty(t: Table, now: int)
    requires Listing(t) == []
    ensures ReconciledTable(t, now) == t
  {
    assert |t| == 0;
    assert t == map[];
  }

  /** The database after an accepted push: every business store that could be read is reconciled. */
  function Reconciled(db: Db, unreadable: set<StoreName>, now: int): Db {
    map s | s in db :: if s != Users && s !in unreadable then ReconciledTable(db[s], now) else db[s]
  }

  /** The database part-way through the marking: only the business stores listed in `done` have been reconciled. */
  function PartlyReconciled(db: Db, unreadable: set<StoreName>, done: seq<StoreName>, now: int): Db {
    map s | s in db :: if s in done && s != Users && s !in unreadable then ReconciledTable(db[s], now) else db[s]
  }

  lemma PartlyReconciledNone(db: Db, unreadable: set<StoreName>, now: int)
    ensures PartlyReconciled(db, unreadable, [], now) == db
  {
  }

  lemma PartlyReconciledStep(db: Db, unreadable: set<StoreName>, done: seq<StoreName>, s: StoreName, now: int)
    requires s in db && s != Users
    ensures PartlyReconciled(db, unreadable, done + [s], now)
      == PartlyReconciled(db, unreadable, done, now)[s := if s in unreadable then db[s] else ReconciledTable(db[s], now)]
  {
  }

  lemma PartlyReconciledAll(db: Db, unreadable: set<StoreName>, now: int)
    ensures PartlyReconciled(db, unreadable, BusinessStores, now) == Reconciled(db, unreadable, now)
  {
    forall s | s != Users ensures s in BusinessStores {
      assert BusinessStores[BusinessIndex(s)] == s;
    }
  }

  /** No business store is listed twice. */
  lemma BusinessStoresOnce(i: nat)
    requires i < |BusinessStores|
    ensures BusinessStores[i] !in BusinessStores[..i]
  {
  }

  /**
   * After an accepted push every record of every readable business store is
   * synced and keeps its `_id` and every field but `synced` and `updatedAt`;
   * `users` and the stores that could not be read are untouched.
   */
  lemma ReconciledSynced(db: Db, unreadable: set<StoreName>, now: int)
    ensures Reconciled(db, unreadable, now).Keys == db.Keys
    ensures forall s :: s in db && s != Users && s !in unreadable ==>
      Reconciled(db, unreadable, now)[s].Keys == db[s].Keys && AllSynced(Reconciled(db, unreadable, now)[s])
    ensures forall s, k, f :: s in db && k in db[s] && f != "synced" && f != "updatedAt" ==>
      Get(Reconciled(db, unreadable, now)[s][k], f) == Get(db[s][k], f)
    ensures forall s :: s in db && (s == Users || s in unreadable) ==> Reconciled(db, unreadable, now)[s] == db[s]
    ensures Complete(db) ==> Complete(Reconciled(db, unreadable, now))
  {
    var r := Reconciled(db, unreadable, now);
    if Complete(db) {
      forall s: StoreName ensures s in r && WellKeyed(r[s]) {
        forall k | k in r[s] ensures KeyOf(r[s][k]) == Some(k) {
          assert Get(r[s][k], "_id") == Get(db[s][k], "_id");
        }
      }
    }
  }

  /** Reconciliation keeps every store present and every record under its own key. */
  lemma ReconciledComplete(db: Db, unreadable: set<StoreName>, now: int)
    requires Complete(db)
    ensures Complete(Reconciled(db, unreadable, now))
  {
    forall s: StoreName ensures WellKeyed(Reconciled(db, unreadable, now)[s]) {
      if s != Users && s !in unreadable {
        ReconciledTableKeyed(db[s], now);
      }
    }
  }

  /** A second reconciliation right after the first changes nothing, whatever the clock says. */
  lemma ReconcileIdempotent(db: Db, unreadable: set<StoreName>, now: int, later: int)
    ensures Reconciled(Reconciled(db, unreadable, now), unreadable, later) == Reconciled(db, unreadable, now)
  {
    var r := Reconciled(db, unreadable, now);
    var r2 := Reconciled(r, unreadable, later);
    forall s | s in r ensures r2[s] == r[s] {
      if s != Users && s !in unreadable {
        assert forall k :: k in r[s] ==> IsSynced(r[s][k]);
      }
    }
  }
}
