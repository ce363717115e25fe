/**
 * The demonstration records `loadSampleData` writes when no server data is
 * available: two families, three customers, two orders, one measurement and
 * one template, all marked synced and owned by the given user.
 */
module SampleData {
  import opened Wrappers
  import opened JsValues
  import opened StoreModel

  /** A sample record: it carries its `_id`, `synced: true` and its owner. */
  predicate Owned(r: Rec, id: string, userId: Value) {
    KeyOf(r) == Some(id) && IsSynced(r) && Get(r, "userId") == userId
  }

  function Family(id: string, name: string, userId: Value): (r: Rec)
    ensures Owned(r, id, userId)
  {
    map["_id" := Str(id), "name" := Str(name), "synced" := Bool(true), "userId" := userId]
  }

  function Customer(id: string, name: string, phone: string, familyId: string, address: string, userId: Value): (r: Rec)
    ensures Owned(r, id, userId)
    ensures Get(r, "familyId") == Str(familyId)
  {
    map["_id" := Str(id), "name" := Str(name), "phone" := Str(phone), "familyId" := Str(familyId),
        "address" := Str(address), "synced" := Bool(true), "userId" := userId]
  }

  function Order(id: string, customerId: string, description: string, quantity: int, rate: int, total: int, status: string, userId: Value): (r: Rec)
    ensures Owned(r, id, userId)
    ensures Get(r, "customerId") == Str(customerId)
  {
    var item := Obj(map["description" := Str(description), "quantity" := Num(quantity), "rate" := Num(rate)]);
    map["_id" := Str(id), "customerId" := Str(customerId), "items" := List([item]), "totalAmount" := Num(total),
        "status" := Str(status), "synced" := Bool(true), "userId" := userId]
  }

  function Measurement(id: string, customerId: string, templateId: string, values: Value, userId: Value): (r: Rec)
    ensures Owned(r, id, userId)
    ensures Get(r, "customerId") == Str(customerId) && Get(r, "templateId") == Str(templateId)
  {
    map["_id" := Str(id), "customerId" := Str(customerId), "templateId" := Str(templateId),
        "values" := values, "synced" := Bool(true), "userId" := userId]
  }

  function Template(id: string, name: string, fields: seq<Value>, userId: Value): (r: Rec)
    ensures Owned(r, id, userId)
  {
    map["_id" := Str(id), "name" := Str(name), "measurements" := List(fields), "synced" := Bool(true), "userId" := userId]
  }

  function FieldDef(key: string, caption: string): Value {
    Obj(map["field" := Str(key), "label_en" := Str(caption), "unit" := Str("inches")])
  }

  function SampleFamilies(userId: Value): seq<Rec> {
    [Family("family-1", "The Smiths", userId), Family("family-2", "The Jones", userId)]
  }

  function SampleCustomers(userId: Value): seq<Rec> {
    [Customer("cust-1", "John Smith", "123-456-7890", "family-1", "123 Main St", userId),
     Customer("cust-2", "Jane Smith", "123-456-7891", "family-1", "123 Main St", userId),
     Customer("cust-3", "Peter Jones", "987-654-3210", "family-2", "456 Oak Ave", userId)]
  }

  function SampleOrders(userId: Value): seq<Rec> {
    [Order("order-1", "cust-1", "Shirt", 2, 500, 1000, "delivered", userId),
     Order("order-2", "cust-3", "Pants", 1, 1200, 1200, "pending", userId)]
  }

  function SampleMeasurements(userId: Value): seq<Rec> {
    [Measurement("meas-1", "cust-1", "temp-1", Obj(map["chest" := Str("40"), "waist" := Str("34")]), userId)]
  }

  function SampleTemplates(userId: Value): seq<Rec> {
    [Template("temp-1", "Standard Shirt", [FieldDef("chest", "Chest"), FieldDef("waist", "Waist")], userId)]
  }

  /** The five lists of records a load writes, one per store it fills. */
  datatype Catalog = Catalog(families: seq<Rec>, customers: seq<Rec>, orders: seq<Rec>,
                             measurements: seq<Rec>, templates: seq<Rec>)

  function Samples(userId: Value): Catalog {
    Catalog(SampleFamilies(userId), SampleCustomers(userId), SampleOrders(userId),
            SampleMeasurements(userId), SampleTemplates(userId))
  }

  /**
   * `d` is database `db` after loading catalog `c`: `users` is left alone,
   * `payments` and `invoices` are cleared, and every other store holds just
   * the catalog's records, each added with its own `addData` request.
   */
  predicate Loads(d: Db, db: Db, c: Catalog, now: int) {
    Users in d && Users in db && d[Users] == db[Users]
    && Payments in d && d[Payments] == map[]
    && Invoices in d && d[Invoices] == map[]
    && Families in d && d[Families] == AddEach(map[], c.families, now)
    && Customers in d && d[Customers] == AddEach(map[], c.customers, now)
    && Orders in d && d[Orders] == AddEach(map[], c.orders, now)
    && Measurements in d && d[Measurements] == AddEach(map[], c.measurements, now)
    && Templates in d && d[Templates] == AddEach(map[], c.templates, now)
  }

  /** The `_id`s of a list of records. */
  function KeySet(items: seq<Rec>): set<string> {
    set i | 0 <= i < |items| && KeyOf(items[i]).Some? :: KeyOf(items[i]).value
  }

  /** Every record of the list is synced and owned by `userId`. */
  predicate OwnedList(items: seq<Rec>, userId: Value) {
    forall i :: 0 <= i < |items| ==> IsSynced(items[i]) && Get(items[i], "userId") == userId
  }

  /** Every record's `field` is the `_id` of a record of `targets`. */
  predicate Refers(items: seq<Rec>, field: string, targets: seq<Rec>) {
    forall i :: 0 <= i < |items| ==> Get(items[i], field).Str? && Get(items[i], field).s in KeySet(targets)
  }

  /** Within each list the `_id`s are present and distinct, and every record is synced and owned by `userId`. */
  predicate FitLists(c: Catalog, userId: Value) {
    KeyedDistinct(c.families) && KeyedDistinct(c.customers) && KeyedDistinct(c.orders)
    && KeyedDistinct(c.measurements) && KeyedDistinct(c.templates)
    && OwnedList(c.families, userId) && OwnedList(c.customers, userId) && OwnedList(c.orders, userId)
    && OwnedList(c.measurements, userId) && OwnedList(c.templates, userId)
  }

  /**
   * A catalog fit to load: within each list the `_id`s are present and
   * distinct, every record is synced and owned by `userId`, and customers
   * name a family, orders a customer, measurements a customer and a template.
   */
  predicate ValidCatalog(c: Catalog, userId: Value) {
    FitLists(c, userId)
    && Link(c.customers, "familyId", c.families)
    && Link(c.orders, "customerId", c.customers)
    && Link(c.measurements, "customerId", c.customers)
    && Link(c.measurements, "templateId", c.templates)
  }

  /** Every record of `items` has a `field`, other than the timestamps, naming a record of `targets`. */
  predicate Link(items: seq<Rec>, field: string, targets: seq<Rec>) {
    field != "createdAt" && field != "updatedAt"
    && KeyedDistinct(items) && KeyedDistinct(targets)
    && Refers(items, field, targets)
  }

  /* ------------------------------------------------------------- the samples */

  lemma SampleFamiliesFit(userId: Value)
    ensures KeyedDistinct(SampleFamilies(userId)) && OwnedList(SampleFamilies(userId), userId)
    ensures KeySet(SampleFamilies(userId)) == {"family-1", "family-2"}
  {
    var fs := SampleFamilies(userId);
    assert KeyOf(fs[0]) == Some("family-1") && KeyOf(fs[1]) == Some("family-2");
  }

  lemma SampleCustomersFit(userId: Value)
    ensures KeyedDistinct(SampleCustomers(userId)) && OwnedList(SampleCustomers(userId), userId)
    ensures KeySet(SampleCustomers(userId)) == {"cust-1", "cust-2", "cust-3"}
  {
    var cs := SampleCustomers(userId);
    assert KeyOf(cs[0]) == Some("cust-1") && KeyOf(cs[1]) == Some("cust-2") && KeyOf(cs[2]) == Some("cust-3");
  }

  lemma SampleOrdersFit(userId: Value)
    ensures KeyedDistinct(SampleOrders(userId)) && OwnedList(SampleOrders(userId), userId)
    ensures KeySet(SampleOrders(userId)) == {"order-1", "order-2"}
  {
    var os := SampleOrders(userId);
    assert KeyOf(os[0]) == Some("order-1") && KeyOf(os[1]) == Some("order-2");
  }

  lemma SampleMeasurementsFit(userId: Value)
    ensures KeyedDistinct(SampleMeasurements(userId)) && OwnedList(SampleMeasurements(userId), userId)
    ensures KeySet(SampleMeasurements(userId)) == {"meas-1"}
  {
    var ms := SampleMeasurements(userId);
    assert KeyOf(ms[0]) == Some("meas-1");
  }

  lemma SampleTemplatesFit(userId: Value)
    ensures KeyedDistinct(SampleTemplates(userId)) && OwnedList(SampleTemplates(userId), userId)
    ensures KeySet(SampleTemplates(userId)) == {"temp-1"}
  {
    var ts := SampleTemplates(userId);
    assert KeyOf(ts[0]) == Some("temp-1");
  }

  /** Every sample list has distinct `_id`s and holds synced records owned by `userId`. */
  lemma SampleListsFit(userId: Value)
    ensures FitLists(Samples(userId), userId)
  {
    SampleFamiliesFit(userId);
    SampleCustomersFit(userId);
    SampleOrdersFit(userId);
    SampleMeasurementsFit(userId);
    SampleTemplatesFit(userId);
  }

  /** Customers name families. */
  lemma SampleCustomersLinked(userId: Value)
    ensures Link(SampleCustomers(userId), "familyId", SampleFamilies(userId))
  {
    SampleFamiliesFit(userId);
    SampleCustomersFit(userId);
    var cs := SampleCustomers(userId);
    assert Get(cs[0], "familyId") == Str("family-1");
    assert Get(cs[1], "familyId") == Str("family-1");
    assert Get(cs[2], "familyId") == Str("family-2");
  }

  /** Orders name customers. */
  lemma SampleOrdersLinked(userId: Value)
    ensures Link(SampleOrders(userId), "customerId", SampleCustomers(userId))
  {
    SampleCustomersFit(userId);
    SampleOrdersFit(userId);
    var os := SampleOrders(userId);
    assert Get(os[0], "customerId") == Str("cust-1");
    assert Get(os[1], "customerId") == Str("cust-3");
  }

  /** The measurement names a customer. */
  lemma SampleMeasurementsLinked(userId: Value)
    ensures Link(SampleMeasurements(userId), "customerId", SampleCustomers(userId))
  {
    SampleCustomersFit(userId);
    SampleMeasurementsFit(userId);
    assert Get(SampleMeasurements(userId)[0], "customerId") == Str("cust-1");
  }

  /** The measurement names a template. */
  lemma SampleMeasurementsTemplated(userId: Value)
    ensures Link(SampleMeasurements(userId), "templateId", SampleTemplates(userId))
  {
    SampleTemplatesFit(userId);
    SampleMeasurementsFit(userId);
    assert Get(SampleMeasurements(userId)[0], "templateId") == Str("temp-1");
  }

  /** The demonstration catalog is fit to load. */
  lemma SamplesValid(userId: Value)
    ensures ValidCatalog(Samples(userId), userId)
  {
    SampleListsFit(userId);
    SampleCustomersLinked(userId);
    SampleOrdersLinked(userId);
    SampleMeasurementsLinked(userId);
    SampleMeasurementsTemplated(userId);
  }

  /* ------------------------------------------------------- loading a catalog */

  /** A stored sample record: synced, owned by `userId` and stamped with the load time. */
  predicate Stamped(r: Rec, userId: Value, now: int) {
    IsSynced(r) && Get(r, "userId") == userId && Get(r, "createdAt") == Date(now)
  }

  /** Every record of `t` is a stamped sample record. */
  predicate AllStamped(t: Table, userId: Value, now: int) {
    forall k :: k in t ==> Stamped(t[k], userId, now)
  }

  /** Records with distinct keys added to an empty store: their keys, each holding its own record, stamped. */
  lemma LoadedTable(items: seq<Rec>, now: int)
    requires KeyedDistinct(items)
    ensures AddEach(map[], items, now).Keys == KeySet(items)
    ensures forall k :: k in AddEach(map[], items, now) ==>
      exists i :: 0 <= i < |items| && KeyOf(items[i]) == Some(k) && AddEach(map[], items, now)[k] == Added(items[i], now)
  {
    var t := AddEach(map[], items, now);
    AddEachIntoEmpty(items, now);
    forall k | k in t
      ensures exists i :: 0 <= i < |items| && KeyOf(items[i]) == Some(k) && t[k] == Added(items[i], now)
    {
      var i :| 0 <= i < |items| && KeyOf(items[i]) == Some(k);
      assert KeyOf(items[i]).value in t && t[KeyOf(items[i]).value] == Added(items[i], now);
    }
  }

  /** Loading owned records gives a store whose every record is stamped. */
  lemma LoadedStamped(items: seq<Rec>, userId: Value, now: int)
    requires KeyedDistinct(items) && OwnedList(items, userId)
    ensures AllStamped(AddEach(map[], items, now), userId, now)
  {
    var t := AddEach(map[], items, now);
    LoadedTable(items, now);
    forall k | k in t ensures Stamped(t[k], userId, now) {
      var i :| 0 <= i < |items| && KeyOf(items[i]) == Some(k) && t[k] == Added(items[i], now);
      assert Get(Added(items[i], now), "synced") == Get(items[i], "synced");
      assert Get(Added(items[i], now), "userId") == Get(items[i], "userId");
    }
  }

  /** Every record of table `from` has a `field` naming a record of table `to`. */
  predicate Resolves(from: Table, field: string, to: Table) {
    forall k :: k in from ==> Get(from[k], field).Str? && Get(from[k], field).s in to
  }

  /** A reference field survives loading: each stored record's `field` names a stored target. */
  lemma LoadedRefers(items: seq<Rec>, field: string, targets: seq<Rec>, now: int)
    requires Link(items, field, targets)
    ensures Resolves(AddEach(map[], items, now), field, AddEach(map[], targets, now))
  {
    var t := AddEach(map[], items, now);
    LoadedTable(items, now);
    LoadedTable(targets, now);
    forall k | k in t ensures Get(t[k], field).Str? && Get(t[k], field).s in AddEach(map[], targets, now) {
      var i :| 0 <= i < |items| && KeyOf(items[i]) == Some(k) && t[k] == Added(items[i], now);
      assert Get(t[k], field) == Get(items[i], field);
    }
  }

  /** A list loaded into an empty store: exactly its `_id`s, every record stamped. */
  lemma LoadedStore(items: seq<Rec>, userId: Value, now: int)
    requires KeyedDistinct(items) && OwnedList(items, userId)
    ensures AddEach(map[], items, now).Keys == KeySet(items)
    ensures AllStamped(AddEach(map[], items, now), userId, now)
  {
    LoadedTable(items, now);
    LoadedStamped(items, userId, now);
  }

  /** Adding each list in turn to the cleared stores loads the catalog. */
  lemma LoadsInTurn(db: Db, cleared: Db, c: Catalog, now: int)
    requires Users in db && Complete(cleared) && cleared[Users] == db[Users]
    requires forall s :: s != Users ==> cleared[s] == map[]
    ensures Loads(cleared[Families := AddEach(cleared[Families], c.families, now)]
                         [Customers := AddEach(cleared[Customers], c.customers, now)]
                         [Orders := AddEach(cleared[Orders], c.orders, now)]
                         [Measurements := AddEach(cleared[Measurements], c.measurements, now)]
                         [Templates := AddEach(cleared[Templates], c.templates, now)], db, c, now)
  {
    assert cleared[Families] == map[] && cleared[Customers] == map[] && cleared[Orders] == map[];
    assert cleared[Measurements] == map[] && cleared[Templates] == map[];
    assert cleared[Payments] == map[] && cleared[Invoices] == map[];
  }

  /**
   * After loading a fit catalog, each store it fills holds exactly the `_id`s
   * of its list, and every record in a business store is synced, owned by
   * `userId` and stamped with the load time.
   */
  lemma SampleLoaded(d: Db, db: Db, c: Catalog, userId: Value, now: int)
    requires Loads(d, db, c, now) && FitLists(c, userId)
    ensures d[Families].Keys == KeySet(c.families)
    ensures d[Customers].Keys == KeySet(c.customers)
    ensures d[Orders].Keys == KeySet(c.orders)
    ensures d[Measurements].Keys == KeySet(c.measurements)
    ensures d[Templates].Keys == KeySet(c.templates)
    ensures forall s :: s in d && s != Users ==> AllStamped(d[s], userId, now)
  {
    LoadedStore(c.families, userId, now);
    LoadedStore(c.customers, userId, now);
    LoadedStore(c.orders, userId, now);
    LoadedStore(c.measurements, userId, now);
    LoadedStore(c.templates, userId, now);
  }
  /** Loading the samples keeps nothing of the business stores it replaces. */
  lemma SamplesReplaceLocal(d: Db, db: Db, userId: Value, now: int)
    requires Loads(d, db, Samples(userId), now)
    ensures d[Customers].Keys == {"cust-1", "cust-2", "cust-3"}
    ensures d[Orders].Keys == {"order-1", "order-2"}
    ensures d[Invoices] == map[] && d[Payments] == map[]
  {
    SampleListsFit(userId);
    SampleCustomersFit(userId);
    SampleOrdersFit(userId);
    SampleLoaded(d, db, Samples(userId), userId, now);
  }


  /**
   * After loading a fit catalog, every customer's `familyId` names a stored
   * family, every order's and measurement's `customerId` a stored customer and
   * every measurement's `templateId` a stored template.
   */
  lemma SampleLinksResolve(d: Db, db: Db, c: Catalog, userId: Value, now: int)
    requires Loads(d, db, c, now) && ValidCatalog(c, userId)
    ensures Resolves(d[Customers], "familyId", d[Families])
    ensures Resolves(d[Orders], "customerId", d[Customers])
    ensures Resolves(d[Measurements], "customerId", d[Customers])
    ensures Resolves(d[Measurements], "templateId", d[Templates])
  {
    LoadedRefers(c.customers, "familyId", c.families, now);
    LoadedRefers(c.orders, "customerId", c.customers, now);
    LoadedRefers(c.measurements, "customerId", c.customers, now);
    LoadedRefers(c.measurements, "templateId", c.templates, now);
  }
}
