/**
 * The invoices page: an invoice drawn up from a selected order, with a
 * discount and a tax entered by hand, and the customer name shown for it.
 */
module InvoicesPage {
  import opened Wrappers
  import opened Text
  import opened JsValues
  import opened Seqs
  import opened StoreModel
  import opened IndexedDb

  /** `Number.parseFloat` of an input; `None` stands for NaN. */
  function Parsed(n: Option<int>): Value {
    match n
    case Some(x) => Num(x)
    case None => NaN
  }

  /** `invoiceData`: the discount and tax as last parsed, and the notes. */
  datatype InvoiceInput = InvoiceInput(discount: Option<int>, tax: Option<int>, notes: string)

  /** The inputs as the form opens and as it is reset after a save. */
  const BlankInput := InvoiceInput(Some(0), Some(0), "")

  /** `selectedOrder.totalAmount || 0` */
  function Subtotal(order: Value): Value {
    Or(Field(order, "totalAmount"), Num(0))
  }

  /** The amount an entry stands for: what was parsed, or 0 for NaN. */
  function Amount(n: Option<int>): int {
    match n
    case Some(x) => x
    case None => 0
  }

  /** `invoiceData.discount || 0`, and the same for the tax: an unparsable entry counts as 0. */
  function Charge(n: Option<int>): (r: Value)
    ensures r == Num(Amount(n))
  {
    Or(Parsed(n), Num(0))
  }

  /** `subtotal - discount + tax` */
  function Total(subtotal: Value, input: InvoiceInput): Value {
    Plus(Minus(subtotal, Charge(input.discount)), Charge(input.tax))
  }

  /** The fields of the invoice `handleCreateInvoice` adds. */
  datatype Invoice = Invoice(
    id: string, orderId: Value, customerId: Value, items: Value,
    subtotal: Value, discount: Value, tax: Value, total: Value,
    paid: int, remaining: Value, status: string, notes: string, invoiceNumber: string)

  /** The invoice for `order`, drawn up at clock reading `now`. */
  function NewInvoice(order: Value, input: InvoiceInput, now: nat): (inv: Invoice)
    ensures inv.id == NatToString(now) && inv.invoiceNumber == "INV-" + inv.id
    ensures inv.orderId == Field(order, "_id") && inv.customerId == Field(order, "customerId") && inv.items == Field(order, "items")
    ensures inv.paid == 0 && inv.remaining == inv.total && inv.status == "draft" && inv.notes == input.notes
  {
    var total := Total(Subtotal(order), input);
    Invoice(NatToString(now), Field(order, "_id"), Field(order, "customerId"), Field(order, "items"),
            Subtotal(order), Charge(input.discount), Charge(input.tax), total,
            0, total, "draft", input.notes, "INV-" + NatToString(now))
  }

  /** The invoice as the record stored, keyed by its id. */
  function InvoiceRecord(inv: Invoice): (r: Rec)
    ensures KeyOf(r) == Some(inv.id)
  {
    map["orderId" := inv.orderId, "customerId" := inv.customerId, "items" := inv.items,
        "subtotal" := inv.subtotal, "discount" := inv.discount, "tax" := inv.tax, "total" := inv.total,
        "paid" := Num(inv.paid), "remaining" := inv.remaining, "status" := Str(inv.status),
        "notes" := Str(inv.notes), "invoiceNumber" := Str(inv.invoiceNumber), "_id" := Str(inv.id)]
  }

  /**
   * With a numeric order total the invoice balances: its total, and what
   * remains to be paid, is the subtotal less the discount plus the tax, and
   * an entry that does not parse counts as nothing.
   */
  lemma InvoiceBalances(order: Value, input: InvoiceInput, now: nat, subtotal: int)
    requires Field(order, "totalAmount") == Num(subtotal)
    ensures NewInvoice(order, input, now).total == Num(subtotal - Amount(input.discount) + Amount(input.tax))
    ensures NewInvoice(order, input, now).remaining == NewInvoice(order, input, now).total
  {
    assert Subtotal(order) == Num(subtotal);
    NumericTotal(subtotal, input);
  }

  lemma NumericTotal(subtotal: int, input: InvoiceInput)
    ensures Total(Num(subtotal), input) == Num(subtotal - Amount(input.discount) + Amount(input.tax))
  {
    var m := Minus(Num(subtotal), Charge(input.discount));
    assert m == Num(subtotal - Amount(input.discount));
  }

  /** An order without a total is invoiced from a subtotal of 0. */
  lemma InvoiceWithoutTotal(order: Value, input: InvoiceInput, now: nat)
    requires !Truthy(Field(order, "totalAmount"))
    ensures NewInvoice(order, input, now).subtotal == Num(0)
    ensures NewInvoice(order, input, now).total == Num(Amount(input.tax) - Amount(input.discount))
  {
    assert Subtotal(order) == Num(0);
    NumericTotal(0, input);
    assert NewInvoice(order, input, now).total == Total(Num(0), input);
  }

  datatype InvoiceNotice = SelectAnOrder | InvoiceCreated | InvoiceFailed(error: StoreError)

  /** `handleCreateInvoice`: without a selected order nothing is written; otherwise the invoice is added. */
  method CreateInvoice(db: TailorDB, selected: Value, input: InvoiceInput, now: nat) returns (n: InvoiceNotice)
    requires db.Valid()
    modifies db
    ensures db.Valid()
    ensures !Truthy(selected) ==> n == SelectAnOrder && db.stores == old(db.stores)
    ensures Truthy(selected) ==>
      var w := AddWrite(old(db.stores[Invoices]), InvoiceRecord(NewInvoice(selected, input, now)), now);
      n == (if w.outcome.Pass? then InvoiceCreated else InvoiceFailed(w.outcome.error))
      && db.stores == old(db.stores)[Invoices := w.table]
  {
    if !Truthy(selected) {
      return SelectAnOrder;
    }
    var r := db.Add(Invoices, InvoiceRecord(NewInvoice(selected, input, now)), now);
    n := if r.Pass? then InvoiceCreated else InvoiceFailed(r.error);
  }

  /** A second invoice in the same millisecond collides with the first and is refused. */
  lemma SameMillisecondRefused(t: Table, order: Value, input: InvoiceInput, other: InvoiceInput, now: nat)
    requires AddWrite(t, InvoiceRecord(NewInvoice(order, input, now)), now).outcome.Pass?
    ensures AddWrite(AddWrite(t, InvoiceRecord(NewInvoice(order, input, now)), now).table, InvoiceRecord(NewInvoice(order, other, now)), now).outcome
      == Fail(DuplicateKey)
  {
    AddWriteTwice(t, InvoiceRecord(NewInvoice(order, input, now)), InvoiceRecord(NewInvoice(order, other, now)), now, now);
  }

  /** `customers.find(c => c._id === customerId)?.name || "N/A"` */
  function CustomerName(customers: seq<Rec>, customerId: Value): (r: Value)
    ensures (forall i :: 0 <= i < |customers| ==> !StrictEq(Get(customers[i], "_id"), customerId)) ==> r == Str("N/A")
    ensures (exists i :: FirstMatch(customers, c => StrictEq(Get(c, "_id"), customerId), i)
                         && r == Or(Get(customers[i], "name"), Str("N/A")))
      || (forall i :: 0 <= i < |customers| ==> !StrictEq(Get(customers[i], "_id"), customerId))
  {
    match Find(customers, c => StrictEq(Get(c, "_id"), customerId))
    case None => Str("N/A")
    case Some(c) => Or(Get(c, "name"), Str("N/A"))
  }
}
