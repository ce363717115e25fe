/**
 * The order form: line items added, removed and edited, the running total,
 * the record written on submit, and the form filled in from a stored order
 * for an edit.
 */
module OrderModal {
  import opened Wrappers
  import opened Text
  import opened JsValues
  import opened Seqs
  import opened StoreModel
  import opened IndexedDb

  /** `initialItem` */
  const InitialItem: Rec :=
    map["description" := Str(""), "quantity" := Num(1), "rate" := Num(0), "deliveryDate" := Str(""), "status" := Str("pending")]

  /** The form state: the order's own fields, with its line items kept apart. */
  datatype OrderForm = OrderForm(fields: Rec, items: seq<Value>)

  /* ------------------------------------------------------------ line items */

  /** `addItem`: a copy of the initial item goes at the end. */
  function AddItem(items: seq<Value>): (r: seq<Value>)
    ensures |r| == |items| + 1
    ensures r[..|items|] == items && r[|items|] == Obj(InitialItem)
  {
    items + [Obj(InitialItem)]
  }

  /** Removing the item just added gives back the list. */
  lemma RemoveAddedItem(items: seq<Value>)
    ensures RemoveAt(AddItem(items), |items|) == items
  {
    RemoveAtLast(items, Obj(InitialItem));
  }

  /** `updateItem(i, field, value)`: item `i` gets `field` set to `value`; nothing else changes. */
  function UpdateItem(items: seq<Value>, i: int, field: string, value: Value): (r: seq<Value>)
    requires 0 <= i < |items|
    ensures |r| == |items|
    ensures forall j :: 0 <= j < |items| && j != i ==> r[j] == items[j]
    ensures r[i].Obj? && Field(r[i], field) == value
    ensures forall f :: f != field ==> Field(r[i], f) == Field(items[i], f)
  {
    items[i := Obj(Spread(items[i])[field := value])]
  }

  /** Setting a field twice keeps only the second value. */
  lemma UpdateItemTwice(items: seq<Value>, i: int, field: string, v: Value, w: Value)
    requires 0 <= i < |items|
    ensures UpdateItem(UpdateItem(items, i, field, v), i, field, w) == UpdateItem(items, i, field, w)
  {
    var once := UpdateItem(items, i, field, v);
    assert Spread(once[i])[field := w] == Spread(items[i])[field := w];
  }

  /** `(Number(it.quantity) || 0) * (Number(it.rate) || 0)` */
  function LineAmount(it: Value): int {
    NumberOrZero(Field(it, "quantity")) * NumberOrZero(Field(it, "rate"))
  }

  /** `calcTotal` */
  function CalcTotal(items: seq<Value>): int {
    SumOf(items, LineAmount)
  }

  /** A new item has rate 0, so adding one leaves the total as it was. */
  lemma CalcTotalAddItem(items: seq<Value>)
    ensures CalcTotal(AddItem(items)) == CalcTotal(items)
  {
    SumOfConcat(items, [Obj(InitialItem)], LineAmount);
    assert [Obj(InitialItem)][1..] == [];
  }

  /** Removing an item takes exactly its amount off the total. */
  lemma CalcTotalRemoveItem(items: seq<Value>, i: int)
    requires 0 <= i < |items|
    ensures CalcTotal(RemoveAt(items, i)) == CalcTotal(items) - LineAmount(items[i])
  {
    SumOfRemoveAt(items, i, LineAmount);
  }

  /** Editing an item changes the total by the change in its amount; editing any field but quantity and rate leaves it as it was. */
  lemma CalcTotalUpdateItem(items: seq<Value>, i: int, field: string, value: Value)
    requires 0 <= i < |items|
    ensures CalcTotal(UpdateItem(items, i, field, value))
      == CalcTotal(items) - LineAmount(items[i]) + LineAmount(UpdateItem(items, i, field, value)[i])
    ensures field != "quantity" && field != "rate" ==> CalcTotal(UpdateItem(items, i, field, value)) == CalcTotal(items)
  {
    var r := UpdateItem(items, i, field, value);
    assert r == items[i := r[i]];
    SumOfUpdate(items, i, r[i], LineAmount);
  }

  /* --------------------------------------------------------------- submit */

  /** `{...it, amount}` */
  function WithAmount(it: Value): Value {
    Obj(Spread(it)["amount" := Num(LineAmount(it))])
  }

  /** The `amount` a saved item carries, as a number. */
  function SavedAmount(it: Value): int {
    NumberOrZero(Field(it, "amount"))
  }

  /** The record `submit` writes: every form field, then the customer, the priced items, the total, the advance and `synced: false`. */
  function Payload(form: OrderForm, customer: Value): (p: Rec)
    ensures !IsSynced(p)
    ensures Get(p, "customerId") == Or(Get(form.fields, "customerId"), Field(customer, "_id"))
    ensures Get(p, "advancePayment") == Num(NumberOrZero(Get(form.fields, "advancePayment")))
    ensures Get(p, "totalAmount") == Num(CalcTotal(form.items))
    ensures forall f :: f !in {"customerId", "items", "totalAmount", "advancePayment", "synced"} ==> Get(p, f) == Get(form.fields, f)
  {
    form.fields["customerId" := Or(Get(form.fields, "customerId"), Field(customer, "_id"))]
               ["items" := List(Map(form.items, WithAmount))]
               ["totalAmount" := Num(CalcTotal(form.items))]
               ["advancePayment" := Num(NumberOrZero(Get(form.fields, "advancePayment")))]
               ["synced" := Bool(false)]
  }

  lemma {:induction false} SumOfSavedAmounts(items: seq<Value>)
    ensures SumOf(Map(items, WithAmount), SavedAmount) == CalcTotal(items)
  {
    if items != [] {
      SumOfSavedAmounts(items[1..]);
      assert Map(items, WithAmount)[1..] == Map(items[1..], WithAmount);
    }
  }

  /**
   * The saved items are the form's items in order, each keeping its own
   * fields and carrying `amount = qty * rate`, and `totalAmount` is the sum
   * of those amounts.
   */
  lemma PayloadTotal(form: OrderForm, customer: Value)
    ensures Get(Payload(form, customer), "items").List?
    ensures |Get(Payload(form, customer), "items").items| == |form.items|
    ensures forall i :: 0 <= i < |form.items| ==>
      var saved := Get(Payload(form, customer), "items").items[i];
      Field(saved, "amount") == Num(LineAmount(form.items[i]))
      && forall g :: g != "amount" ==> Field(saved, g) == Field(form.items[i], g)
    ensures Get(Payload(form, customer), "totalAmount") == Num(SumOf(Get(Payload(form, customer), "items").items, SavedAmount))
  {
    SumOfSavedAmounts(form.items);
  }

  /** An empty, zero or missing advance is saved as the number 0. */
  lemma AdvanceDefault(form: OrderForm, customer: Value)
    requires !Truthy(Get(form.fields, "advancePayment"))
    ensures Get(Payload(form, customer), "advancePayment") == Num(0)
  {
    var v := Get(form.fields, "advancePayment");
    if v.Str? {
      assert v.s == "";
      assert ParseInteger(v.s) == Some(0);
    }
  }

  datatype SubmitNotice = NoCustomer | Saved | SaveFailed(error: StoreError)

  /**
   * `submit`: without a customer nothing is written; a form with an `_id`
   * updates that order, and otherwise a new order is added under a fresh
   * local id.
   */
  method Submit(db: TailorDB, form: OrderForm, customer: Value, now: nat) returns (n: SubmitNotice)
    requires db.Valid()
    modifies db
    ensures db.Valid()
    ensures !Truthy(customer) && !Truthy(Get(form.fields, "customerId")) ==> n == NoCustomer && db.stores == old(db.stores)
    ensures (Truthy(customer) || Truthy(Get(form.fields, "customerId"))) && Truthy(Get(form.fields, "_id")) ==>
      var w := PutWrite(old(db.stores[Orders]), Payload(form, customer), now);
      n == (if w.outcome.Pass? then Saved else SaveFailed(w.outcome.error))
      && db.stores == old(db.stores)[Orders := w.table]
    ensures (Truthy(customer) || Truthy(Get(form.fields, "customerId"))) && !Truthy(Get(form.fields, "_id")) ==>
      var w := AddWrite(old(db.stores[Orders]), Payload(form, customer)["_id" := LocalId(now)], now);
      n == (if w.outcome.Pass? then Saved else SaveFailed(w.outcome.error))
      && db.stores == old(db.stores)[Orders := w.table]
  {
    if !Truthy(customer) && !Truthy(Get(form.fields, "customerId")) {
      return NoCustomer;
    }
    var payload := Payload(form, customer);
    var r;
    if Truthy(Get(form.fields, "_id")) {
      r := db.Put(Orders, payload, now);
    } else {
      r := db.Add(Orders, payload["_id" := LocalId(now)], now);
    }
    n := if r.Pass? then Saved else SaveFailed(r.error);
  }

  /* ----------------------------------------------------------------- init */

  /** `d ? d.split("T")[0] : ""`: the date part of a stored date-time. */
  function DateOnly(v: Value): (r: Value)
    ensures r.Str? && 'T' !in r.s
    ensures Truthy(v) ==> StartsWith(AsText(v), r.s)
    ensures !Truthy(v) ==> r == Str("")
  {
    if Truthy(v) then Str(Before(AsText(v), 'T')) else Str("")
  }

  /** Text with no `T` is kept whole. */
  lemma BeforeAbsent(s: string, c: char)
    requires c !in s
    ensures Before(s, c) == s
  {
    var r := Before(s, c);
    if |r| < |s| {
      assert false;
    }
  }

  /** A stored date-time keeps only what precedes its first `T`; a form date read back in is left as it is. */
  lemma DateOnlyCuts(s: string, k: nat)
    requires k < |s| && s[k] == 'T' && 'T' !in s[..k]
    ensures DateOnly(Str(s)) == Str(s[..k])
    ensures DateOnly(DateOnly(Str(s))) == DateOnly(Str(s))
  {
    var r := Before(s, 'T');
    assert StartsWith(s, r) && 'T' !in r;
    if |r| < k {
      assert false;
    } else if |r| > k {
      assert false;
    }
    assert r == s[..k];
    if k > 0 {
      BeforeAbsent(s[..k], 'T');
    }
  }

  /** `{...it, deliveryDate}` with the date cut to its date part. */
  function TrimItem(it: Value): Value {
    Obj(Spread(it)["deliveryDate" := DateOnly(Field(it, "deliveryDate"))])
  }

  /** `order.items || []` */
  function ItemsOf(order: Rec): seq<Value> {
    var v := Get(order, "items");
    if v.List? then v.items else []
  }

  /** `v ? v.split("T")[0] : ""` runs without throwing: `v` is falsy or text. */
  predicate Cuttable(v: Value) {
    !Truthy(v) || v.Str?
  }

  /**
   * Building the edit form from `order` runs without throwing: the order's
   * delivery date can be cut, `items` is falsy or a list, and every item is
   * neither `null` nor `undefined` and has a delivery date that can be cut.
   */
  predicate Editable(order: Rec) {
    Cuttable(Get(order, "deliveryDate"))
    && (!Truthy(Get(order, "items")) || Get(order, "items").List?)
    && forall it :: it in ItemsOf(order) ==> !it.Null? && !it.Undefined? && Cuttable(Field(it, "deliveryDate"))
  }

  /** The form for editing a stored order: its fields, each item's and the order's delivery date cut to the date. */
  function EditForm(order: Rec): (f: OrderForm)
    requires Editable(order)
    ensures |f.items| == |ItemsOf(order)|
    ensures forall i :: 0 <= i < |f.items| ==>
      Field(f.items[i], "deliveryDate") == DateOnly(Field(ItemsOf(order)[i], "deliveryDate"))
      && forall g :: g != "deliveryDate" ==> Field(f.items[i], g) == Field(ItemsOf(order)[i], g)
    ensures Get(f.fields, "deliveryDate") == DateOnly(Get(order, "deliveryDate"))
    ensures forall g :: g != "deliveryDate" ==> Get(f.fields, g) == Get(order, g)
  {
    OrderForm(order["deliveryDate" := DateOnly(Get(order, "deliveryDate"))], Map(ItemsOf(order), TrimItem))
  }

  /** `{...initialFormState, customerId: customer?._id}` */
  function NewForm(customer: Value): OrderForm {
    OrderForm(map["_id" := Null, "customerId" := Field(customer, "_id"), "notes" := Str(""),
                  "advancePayment" := Num(0), "status" := Str("draft"), "deliveryDate" := Str("")],
              [Obj(InitialItem)])
  }

  /** A value IndexedDB accepts as a key: a number, a date, a string, or a list of keys. */
  predicate KeyValue(v: Value) {
    match v
    case Num(_) => true
    case Date(_) => true
    case Str(_) => true
    case List(items) => forall i :: 0 <= i < |items| ==> KeyValue(items[i])
    case _ => false
  }

  /** What `init` leaves the modal with. */
  datatype InitOutcome =
    | Opened(form: OrderForm)  // the form is set
    | NotFound                 // "Order not found locally.", and the modal closes
    | LoadFailed               // "Failed to load order for edit.", and no form is set

  /**
   * `init`: with an order id, the stored order is read and turned into the
   * form; an order that is not stored closes the modal, and a read or a form
   * that throws (a value that is not a key, an order whose dates or items
   * cannot be cut) leaves it without a form. Without an id, a new form for
   * the customer. Stored keys are strings, so a number, date or list id is
   * never found.
   */
  method Init(db: TailorDB, editOrderId: Value, customer: Value) returns (o: InitOutcome)
    requires db.Valid()
    ensures !Truthy(editOrderId) ==> o == Opened(NewForm(customer))
    ensures Truthy(editOrderId) && !KeyValue(editOrderId) ==> o == LoadFailed
    ensures Truthy(editOrderId) && KeyValue(editOrderId) && !(editOrderId.Str? && editOrderId.s in db.stores[Orders]) ==>
      o == NotFound
    ensures Truthy(editOrderId) && editOrderId.Str? && editOrderId.s in db.stores[Orders] ==>
      var order := db.stores[Orders][editOrderId.s];
      o == if Editable(order) then Opened(EditForm(order)) else LoadFailed
  {
    if !Truthy(editOrderId) {
      return Opened(NewForm(customer));
    }
    if !KeyValue(editOrderId) {
      return LoadFailed;
    }
    if !editOrderId.Str? {
      return NotFound;
    }
    var order := db.Get(Orders, editOrderId.s);
    if order.None? {
      return NotFound;
    }
    o := if Editable(order.value) then Opened(EditForm(order.value)) else LoadFailed;
  }
}
