/**
 * The customer list: search, family and status filters over the customers
 * annotated with their orders and measurements, the cascade delete of a
 * customer and "mark delivered" on a customer's latest order.
 */
module CustomersPage {
  import opened Wrappers
  import opened Text
  import opened JsValues
  import opened Seqs
  import opened StoreModel
  import opened IndexedDb

  /* ------------------------------------------------------------ filtering */

  /** `(c.name || "").toLowerCase().includes(lower) || (c.phone || "").includes(lower)` */
  predicate Matches(c: Rec, lower: string) {
    Includes(Lower(AsText(Get(c, "name"))), lower) || Includes(AsText(Get(c, "phone")), lower)
  }

  /** A blank search keeps everyone; otherwise the lower-cased, untrimmed term must match. */
  predicate SearchKeeps(c: Rec, term: string) {
    Trim(term) == "" || Matches(c, Lower(term))
  }

  /** No family selected keeps everyone; otherwise `c.familyId === selectedFamily`. */
  predicate FamilyKeeps(c: Rec, family: string) {
    family == "" || Get(c, "familyId") == Str(family)
  }

  /** The customers left after the search and the family filter, in list order. */
  function Selected(customers: seq<Rec>, term: string, family: string): seq<Rec> {
    var searched := if Trim(term) != "" then Filter(customers, c => Matches(c, Lower(term))) else customers;
    if family != "" then Filter(searched, c => Get(c, "familyId") == Str(family)) else searched
  }

  /** The search and the family filter keep every copy of each customer that passes both, and nothing else. */
  lemma SelectedExactly(customers: seq<Rec>, term: string, family: string)
    ensures forall c ::
      multiset(Selected(customers, term, family))[c] == (if SearchKeeps(c, term) && FamilyKeeps(c, family) then multiset(customers)[c] else 0)
  {
    var searched := if Trim(term) != "" then Filter(customers, c => Matches(c, Lower(term))) else customers;
    if Trim(term) != "" {
      FilterCount(customers, c => Matches(c, Lower(term)));
    }
    if family != "" {
      FilterCount(searched, c => Get(c, "familyId") == Str(family));
    }
  }

  lemma SelectedMembers(customers: seq<Rec>, term: string, family: string)
    ensures forall c :: c in Selected(customers, term, family) <==> c in customers && SearchKeeps(c, term) && FamilyKeeps(c, family)
  {
    SelectedExactly(customers, term, family);
    forall c ensures c in Selected(customers, term, family) <==> c in customers && SearchKeeps(c, term) && FamilyKeeps(c, family) {
      assert c in Selected(customers, term, family) <==> c in multiset(Selected(customers, term, family));
      assert c in customers <==> c in multiset(customers);
    }
  }

  /* ----------------------------------------------------------- annotation */

  /** `orders.filter(o => o.customerId === id)` */
  function OrdersOf(orders: seq<Rec>, id: Value): seq<Rec> {
    Filter(orders, o => StrictEq(Get(o, "customerId"), id))
  }

  /** The first of the customer's orders once sorted newest first: one with the latest `createdAt`. */
  function LatestOrder(orders: seq<Rec>, id: Value): (r: Option<Rec>)
    ensures r.None? <==> OrdersOf(orders, id) == []
    ensures r.Some? ==> r.value in OrdersOf(orders, id)
    ensures r.Some? ==> forall o :: o in OrdersOf(orders, id) ==> CreatedKey(o) <= CreatedKey(r.value)
  {
    var mine := OrdersOf(orders, id);
    var sorted := SortDesc(mine, CreatedKey);
    if sorted == [] then None
    else
      SortDescHeadIsMax(mine, CreatedKey);
      Some(sorted[0])
  }

  /** `{...c, latestOrder, hasMeasurement, orderCount}` */
  function Annotate(c: Rec, orders: seq<Rec>, measurements: seq<Rec>): (r: Rec)
    ensures Get(r, "orderCount") == Num(|OrdersOf(orders, Get(c, "_id"))|)
    ensures Get(r, "hasMeasurement") == Bool(exists i :: 0 <= i < |measurements| && StrictEq(Get(measurements[i], "customerId"), Get(c, "_id")))
    ensures Get(r, "latestOrder") == match LatestOrder(orders, Get(c, "_id")) case None => Undefined case Some(o) => Obj(o)
    ensures forall f :: f !in {"latestOrder", "hasMeasurement", "orderCount"} ==> Get(r, f) == Get(c, f)
  {
    var id := Get(c, "_id");
    var latest := match LatestOrder(orders, id) case None => Undefined case Some(o) => Obj(o);
    c["latestOrder" := latest]
     ["hasMeasurement" := Bool(Any(measurements, m => StrictEq(Get(m, "customerId"), id)))]
     ["orderCount" := Num(|OrdersOf(orders, id)|)]
  }

  /** The sort key of `new Date(c.updatedAt)`. */
  function UpdatedKey(r: Rec): int {
    SortTime(Get(r, "updatedAt"))
  }

  /** `c.latestOrder && c.latestOrder.status.toLowerCase() === statusFilter.toLowerCase()` */
  predicate StatusMatches(r: Rec, status: string) {
    Truthy(Get(r, "latestOrder")) && Lower(AsText(Field(Get(r, "latestOrder"), "status"))) == Lower(status)
  }

  /** Each customer with its annotation, in list order. */
  function Annotated(customers: seq<Rec>, orders: seq<Rec>, measurements: seq<Rec>): seq<Rec> {
    Map(customers, c => Annotate(c, orders, measurements))
  }

  lemma AnnotatedMembers(customers: seq<Rec>, orders: seq<Rec>, measurements: seq<Rec>)
    ensures forall r :: r in Annotated(customers, orders, measurements) <==>
      exists c :: c in customers && r == Annotate(c, orders, measurements)
  {
    var rs := Annotated(customers, orders, measurements);
    forall r | exists c :: c in customers && r == Annotate(c, orders, measurements)
      ensures r in rs
    {
      var c :| c in customers && r == Annotate(c, orders, measurements);
      var i :| 0 <= i < |customers| && customers[i] == c;
      assert rs[i] == r;
    }
  }

  /** The annotated customers, most recently updated first. */
  function Detailed(customers: seq<Rec>, orders: seq<Rec>, measurements: seq<Rec>, term: string, family: string): seq<Rec> {
    SortDesc(Annotated(Selected(customers, term, family), orders, measurements), UpdatedKey)
  }

  /** The list the page shows: the filtering effect. */
  function Shown(customers: seq<Rec>, orders: seq<Rec>, measurements: seq<Rec>, term: string, family: string, status: string): seq<Rec> {
    var detailed := Detailed(customers, orders, measurements, term, family);
    if status != "" then Filter(detailed, r => StatusMatches(r, status)) else detailed
  }

  /** The list is ordered by `updatedAt`, newest first. */
  lemma ShownSorted(customers: seq<Rec>, orders: seq<Rec>, measurements: seq<Rec>, term: string, family: string, status: string)
    ensures SortedDesc(Shown(customers, orders, measurements, term, family, status), UpdatedKey)
  {
    if status != "" {
      FilterSortedDesc(Detailed(customers, orders, measurements, term, family), r => StatusMatches(r, status), UpdatedKey);
    }
  }

  /** The customers that pass the search, the family and the status filters, each annotated. */
  predicate ShownFor(r: Rec, customers: seq<Rec>, orders: seq<Rec>, measurements: seq<Rec>, term: string, family: string, status: string) {
    exists c :: c in customers && SearchKeeps(c, term) && FamilyKeeps(c, family)
      && r == Annotate(c, orders, measurements)
      && (status == "" || StatusMatches(r, status))
  }

  lemma DetailedMembers(customers: seq<Rec>, orders: seq<Rec>, measurements: seq<Rec>, term: string, family: string)
    ensures forall r :: r in Detailed(customers, orders, measurements, term, family) <==>
      exists c :: c in customers && SearchKeeps(c, term) && FamilyKeeps(c, family) && r == Annotate(c, orders, measurements)
  {
    var sel := Selected(customers, term, family);
    var annotated := Annotated(sel, orders, measurements);
    assert forall r :: r in Detailed(customers, orders, measurements, term, family) <==> r in annotated by {
      SortDescMembers(annotated, UpdatedKey);
    }
    assert forall r :: r in annotated <==> exists c :: c in sel && r == Annotate(c, orders, measurements) by {
      AnnotatedMembers(sel, orders, measurements);
    }
    assert forall c :: c in sel <==> c in customers && SearchKeeps(c, term) && FamilyKeeps(c, family) by {
      SelectedMembers(customers, term, family);
    }
  }

  /** A customer is listed exactly when it passes every filter, and it is listed with its annotation. */
  lemma ShownMembers(customers: seq<Rec>, orders: seq<Rec>, measurements: seq<Rec>, term: string, family: string, status: string)
    ensures forall r :: r in Shown(customers, orders, measurements, term, family, status) <==>
      ShownFor(r, customers, orders, measurements, term, family, status)
  {
    DetailedMembers(customers, orders, measurements, term, family);
    if status != "" {
      FilterMembers(Detailed(customers, orders, measurements, term, family), r => StatusMatches(r, status));
    }
  }

  /* ------------------------------------------------------- cascade delete */

  /** The keys of the listed records whose `customerId` is `id`, collected from the front. */
  function RelatedKeys(rs: seq<Rec>, id: Key): set<Key> {
    if rs == [] then {}
    else
      var last := rs[|rs| - 1];
      var before := RelatedKeys(rs[..|rs| - 1], id);
      if Get(last, "customerId") == Str(id) && KeyOf(last).Some? then before + {KeyOf(last).value} else before
  }

  /** A key is collected exactly when some listed record of the customer carries it. */
  lemma {:induction false} RelatedKeysMembers(rs: seq<Rec>, id: Key)
    ensures forall k :: k in RelatedKeys(rs, id) <==>
      exists i :: 0 <= i < |rs| && Get(rs[i], "customerId") == Str(id) && KeyOf(rs[i]) == Some(k)
  {
    if rs != [] {
      var init := rs[..|rs| - 1];
      RelatedKeysMembers(init, id);
      assert forall i :: 0 <= i < |init| ==> init[i] == rs[i];
      forall k | exists i :: 0 <= i < |rs| && Get(rs[i], "customerId") == Str(id) && KeyOf(rs[i]) == Some(k)
        ensures k in RelatedKeys(rs, id)
      {
        var i :| 0 <= i < |rs| && Get(rs[i], "customerId") == Str(id) && KeyOf(rs[i]) == Some(k);
        if i < |init| {
          assert Get(init[i], "customerId") == Str(id) && KeyOf(init[i]) == Some(k);
        }
      }
    }
  }

  /** Every related record in the list has a key that `deleteData` accepts. */
  predicate RelatedKeyed(rs: seq<Rec>, id: Key) {
    forall i :: 0 <= i < |rs| && Get(rs[i], "customerId") == Str(id) ==> KeyOf(rs[i]).Some?
  }

  /** One more listed record extends the related keys by its own key, when it is related and keyed. */
  lemma RelatedKeysStep(rs: seq<Rec>, j: nat, id: Key)
    requires j < |rs|
    ensures RelatedKeys(rs[..j + 1], id) ==
      if Get(rs[j], "customerId") == Str(id) && KeyOf(rs[j]).Some? then RelatedKeys(rs[..j], id) + {KeyOf(rs[j]).value}
      else RelatedKeys(rs[..j], id)
    ensures RelatedKeyed(rs[..j + 1], id) <==>
      RelatedKeyed(rs[..j], id) && (Get(rs[j], "customerId") == Str(id) ==> KeyOf(rs[j]).Some?)
  {
    assert rs[..j + 1][..j] == rs[..j];
  }

  /** After `j` of the listed records: the related ones met so far are deleted, and `ok` says none of them lacked a key. */
  ghost predicate Pruned(start: Db, cur: Db, s: StoreName, rs: seq<Rec>, j: nat, id: Key, ok: bool) {
    j <= |rs| && s in start
    && cur == start[s := start[s] - RelatedKeys(rs[..j], id)]
    && (ok <==> RelatedKeyed(rs[..j], id))
  }

  lemma PrunedStep(start: Db, cur: Db, s: StoreName, rs: seq<Rec>, j: nat, id: Key, ok: bool)
    requires Pruned(start, cur, s, rs, j, id, ok) && j < |rs|
    ensures Get(rs[j], "customerId") != Str(id) ==> Pruned(start, cur, s, rs, j + 1, id, ok)
    ensures Get(rs[j], "customerId") == Str(id) && KeyOf(rs[j]).None? ==> Pruned(start, cur, s, rs, j + 1, id, false)
    ensures Get(rs[j], "customerId") == Str(id) && KeyOf(rs[j]).Some? ==>
      s in cur && Pruned(start, cur[s := cur[s] - {KeyOf(rs[j]).value}], s, rs, j + 1, id, ok)
  {
    RelatedKeysStep(rs, j, id);
    var gone := RelatedKeys(rs[..j], id);
    if Get(rs[j], "customerId") == Str(id) && KeyOf(rs[j]).Some? {
      var k := KeyOf(rs[j]).value;
      assert start[s] - gone - {k} == start[s] - (gone + {k});
    }
  }

  /** Deletes from store `s` each listed record that belongs to customer `id`. */
  method DeleteRelated(db: TailorDB, s: StoreName, rs: seq<Rec>, id: Key) returns (ok: bool)
    requires db.Valid()
    modifies db
    ensures db.Valid()
    ensures db.stores == old(db.stores)[s := old(db.stores[s]) - RelatedKeys(rs, id)]
    ensures ok <==> RelatedKeyed(rs, id)
  {
    ghost var start := db.stores;
    var j := 0;
    ok := true;
    assert RelatedKeys(rs[..0], id) == {};
    assert start[s] - {} == start[s];
    assert start[s := start[s]] == start;
    while j < |rs|
      invariant db.Valid() && Pruned(start, db.stores, s, rs, j, id, ok)
      decreases |rs| - j
    {
      PrunedStep(start, db.stores, s, rs, j, id, ok);
      if Get(rs[j], "customerId") == Str(id) {
        match KeyOf(rs[j]) {
          case None =>
            ok := false;
          case Some(k) =>
            db.Delete(s, k);
        }
      }
      j := j + 1;
    }
    assert rs[..j] == rs;
  }

  datatype DeleteNotice = DeleteCancelled | CustomerDeleted | DeleteFailed

  /**
   * `deleteCustomer(customerId)`: once confirmed, deletes the customer and
   * each of its orders and measurements in the page's lists, each by its own
   * request.
   */
  method DeleteCustomer(db: TailorDB, customerId: Key, orders: seq<Rec>, measurements: seq<Rec>, confirmed: bool) returns (n: DeleteNotice)
    requires db.Valid()
    modifies db
    ensures db.Valid()
    ensures !confirmed ==> n == DeleteCancelled && db.stores == old(db.stores)
    ensures confirmed ==>
      db.stores == old(db.stores)[Orders := old(db.stores[Orders]) - RelatedKeys(orders, customerId)]
                                 [Measurements := old(db.stores[Measurements]) - RelatedKeys(measurements, customerId)]
                                 [Customers := old(db.stores[Customers]) - {customerId}]
      && (n == CustomerDeleted <==> RelatedKeyed(orders, customerId) && RelatedKeyed(measurements, customerId))
      && n != DeleteCancelled
  {
    if !confirmed {
      return DeleteCancelled;
    }
    var okOrders := DeleteRelated(db, Orders, orders, customerId);
    var okMeasurements := DeleteRelated(db, Measurements, measurements, customerId);
    db.Delete(Customers, customerId);
    n := if okOrders && okMeasurements then CustomerDeleted else DeleteFailed;
  }

  /**
   * When the page's list is what the store holds, the cascade leaves no
   * record of the customer behind and keeps every other record.
   */
  lemma CascadeComplete(t: Table, id: Key)
    requires WellKeyed(t)
    ensures forall k :: k in t - RelatedKeys(Listing(t), id) <==> k in t && Get(t[k], "customerId") != Str(id)
  {
    ListingExact(t);
    var rs := Listing(t);
    RelatedKeysMembers(rs, id);
    forall k | k in t && Get(t[k], "customerId") == Str(id) ensures k in RelatedKeys(rs, id) {
      assert t[k] in rs;
      var i :| 0 <= i < |rs| && rs[i] == t[k];
    }
    forall k | k in RelatedKeys(rs, id) ensures k in t && Get(t[k], "customerId") == Str(id) {
      var i :| 0 <= i < |rs| && Get(rs[i], "customerId") == Str(id) && KeyOf(rs[i]) == Some(k);
      assert rs[i] in rs;
    }
  }

  /* ------------------------------------------------------ mark delivered */

  /** `{...latestOrder, status: "delivered", synced: false}` */
  function DeliveredOrder(latest: Value): (r: Rec)
    ensures Get(r, "status") == Str("delivered") && !IsSynced(r)
    ensures forall f :: f != "status" && f != "synced" ==> Get(r, f) == Field(latest, f)
  {
    Spread(latest)["status" := Str("delivered")]["synced" := Bool(false)]
  }

  /** The advance already paid on an order: `advancePayment || 0`. */
  function Advance(latest: Value): Value {
    Or(Field(latest, "advancePayment"), Num(0))
  }

  /** A full cash payment record, unsynced, under key `id`. */
  function CashPayment(id: Value, customerId: Value, orderId: Value, amount: Value): (p: Rec)
    ensures !IsSynced(p) && Get(p, "_id") == id && Get(p, "amount") == amount
    ensures Get(p, "customerId") == customerId && Get(p, "orderId") == orderId
    ensures Get(p, "type") == Str("full") && Get(p, "method") == Str("cash")
  {
    map["customerId" := customerId, "orderId" := orderId, "amount" := amount,
        "type" := Str("full"), "method" := Str("cash"), "synced" := Bool(false), "_id" := id]
  }

  /** The full cash payment for the rest of the order's total. */
  function FullPayment(customer: Rec, latest: Value, now: nat): (p: Rec)
    ensures !IsSynced(p) && Get(p, "_id") == LocalId(now)
    ensures Get(p, "customerId") == Get(customer, "_id") && Get(p, "orderId") == Field(latest, "_id")
    ensures Get(p, "type") == Str("full") && Get(p, "method") == Str("cash")
  {
    CashPayment(LocalId(now), Get(customer, "_id"), Field(latest, "_id"), Minus(Field(latest, "totalAmount"), Advance(latest)))
  }

  /** With a numeric total and a numeric (or missing) advance, the advance and the payment together make up the total. */
  lemma FullPaymentSettles(customer: Rec, latest: Value, now: nat, total: int)
    requires Field(latest, "totalAmount") == Num(total)
    requires Field(latest, "advancePayment").Num? || !Truthy(Field(latest, "advancePayment"))
    ensures Get(FullPayment(customer, latest, now), "amount").Num?
    ensures NumberOrZero(Advance(latest)) + Get(FullPayment(customer, latest, now), "amount").n == total
  {
  }

  datatype DeliveredNotice = NoOrder | NotConfirmed | MarkedDelivered | DeliverFailed(error: StoreError)

  /**
   * `handleOrderDelivered(customer)`: without a latest order nothing is
   * written; once confirmed, the order is put back as delivered and unsynced,
   * then the full payment is added. A failing put stops before the payment.
   */
  method MarkDelivered(db: TailorDB, customer: Rec, confirmed: bool, now: nat) returns (n: DeliveredNotice)
    requires db.Valid()
    modifies db
    ensures db.Valid()
    ensures !Truthy(Get(customer, "latestOrder")) ==> n == NoOrder && db.stores == old(db.stores)
    ensures Truthy(Get(customer, "latestOrder")) && !confirmed ==> n == NotConfirmed && db.stores == old(db.stores)
    ensures Truthy(Get(customer, "latestOrder")) && confirmed ==>
      var latest := Get(customer, "latestOrder");
      var put := PutWrite(old(db.stores[Orders]), DeliveredOrder(latest), now);
      var add := AddWrite(old(db.stores[Payments]), FullPayment(customer, latest, now), now);
      (put.outcome.Fail? ==> n == DeliverFailed(put.outcome.error) && db.stores == old(db.stores))
      && (put.outcome.Pass? ==>
            n == (if add.outcome.Pass? then MarkedDelivered else DeliverFailed(add.outcome.error))
            && db.stores == old(db.stores)[Orders := put.table][Payments := add.table])
  {
    var latest := Get(customer, "latestOrder");
    if !Truthy(latest) {
      return NoOrder;
    }
    if !confirmed {
      return NotConfirmed;
    }
    var r := db.Put(Orders, DeliveredOrder(latest), now);
    if r.Fail? {
      return DeliverFailed(r.error);
    }
    var r2 := db.Add(Payments, FullPayment(customer, latest, now), now);
    n := if r2.Pass? then MarkedDelivered else DeliverFailed(r2.error);
  }
}
