/**
 * The customer form: filled in from the customer being edited (or blank),
 * and saved as an update of that customer or as a new local customer.
 */
module AddCustomerModal {
  import opened Wrappers
  import opened JsValues
  import opened Seqs
  import opened StoreModel
  import opened IndexedDb

  /**
   * The four inputs of the form. Name, phone and address hold whatever was
   * set: typed text, or a value copied from the customer being edited, which
   * need not be text.
   */
  datatype CustomerForm = CustomerForm(name: Value, phone: Value, familyId: string, address: Value)

  /** The blank form. */
  const BlankForm := CustomerForm(Str(""), Str(""), "", Str(""))

  /** `families.some(f => f._id === id)` */
  predicate FamilyListed(families: seq<Rec>, id: Value) {
    Any(families, f => StrictEq(Get(f, "_id"), id))
  }

  /** The family the form starts on: the customer's own when it is one of the families, otherwise "none". */
  function InitialFamily(toEdit: Value, families: seq<Rec>): (r: string)
    ensures r == "none" || (exists i :: 0 <= i < |families| && Get(families[i], "_id") == Str(r))
    ensures var id := Field(toEdit, "familyId");
      if Truthy(id) && id.Str? && FamilyListed(families, id) then r == id.s else r == "none"
  {
    var id := Field(toEdit, "familyId");
    if Truthy(id) && id.Str? && FamilyListed(families, id) then id.s else "none"
  }

  /** The form as the modal opens: copied from the customer being edited, or blank for a new one. */
  function InitForm(toEdit: Value, families: seq<Rec>): (f: CustomerForm)
    ensures !Truthy(toEdit) ==> f == BlankForm
    ensures Truthy(toEdit) ==> f.familyId == InitialFamily(toEdit, families)
    ensures Truthy(toEdit) ==>
      (Truthy(Field(toEdit, "name")) ==> f.name == Field(toEdit, "name"))
      && (Truthy(Field(toEdit, "phone")) ==> f.phone == Field(toEdit, "phone"))
      && (Truthy(Field(toEdit, "address")) ==> f.address == Field(toEdit, "address"))
    ensures Truthy(toEdit) ==>
      (!Truthy(Field(toEdit, "name")) ==> f.name == Str(""))
      && (!Truthy(Field(toEdit, "phone")) ==> f.phone == Str(""))
      && (!Truthy(Field(toEdit, "address")) ==> f.address == Str(""))
  {
    if Truthy(toEdit) then
      CustomerForm(Or(Field(toEdit, "name"), Str("")), Or(Field(toEdit, "phone"), Str("")),
                   InitialFamily(toEdit, families), Or(Field(toEdit, "address"), Str("")))
    else BlankForm
  }

  /** `!name || !phone` */
  predicate Incomplete(f: CustomerForm) {
    !Truthy(f.name) || !Truthy(f.phone)
  }

  /** `customerData`: the form's fields, "none" stored as no family, and not yet synced. */
  function CustomerData(f: CustomerForm): (r: Rec)
    ensures Get(r, "name") == f.name && Get(r, "phone") == f.phone && Get(r, "address") == f.address
    ensures Get(r, "familyId") == Null <==> f.familyId == "none"
    ensures f.familyId != "none" ==> Get(r, "familyId") == Str(f.familyId)
    ensures !IsSynced(r) && "_id" !in r
  {
    map["name" := f.name, "phone" := f.phone, "address" := f.address,
        "familyId" := (if f.familyId == "none" then Null else Str(f.familyId)),
        "synced" := Bool(false)]
  }

  /** `{...customerToEdit, ...customerData, synced: false}` */
  function Edited(toEdit: Value, f: CustomerForm): (r: Rec)
    ensures forall g :: g in CustomerData(f) ==> Get(r, g) == Get(CustomerData(f), g)
    ensures forall g :: g !in CustomerData(f) ==> Get(r, g) == Field(toEdit, g)
    ensures Get(r, "_id") == Field(toEdit, "_id")
  {
    Spread(toEdit) + CustomerData(f)
  }

  /**
   * A saved customer opens again as the same form, provided the form's
   * family is "none" or one of the listed families; a falsy address comes
   * back as "".
   */
  lemma InitFormSaved(f: CustomerForm, families: seq<Rec>)
    requires !Incomplete(f) && f.familyId != ""
    requires f.familyId == "none" || FamilyListed(families, Str(f.familyId))
    ensures InitForm(Obj(CustomerData(f)), families) == f.(address := Or(f.address, Str("")))
  {
    var c := Obj(CustomerData(f));
    assert Field(c, "name") == f.name && Field(c, "phone") == f.phone;
    assert Field(c, "address") == f.address;
  }

  /**
   * A customer whose phone is stored as a number reopens with that number,
   * passes the completeness check, and is saved with it.
   */
  lemma NumericPhoneKept(toEdit: Value, families: seq<Rec>, n: int)
    requires toEdit.Obj? && Truthy(Field(toEdit, "name")) && Field(toEdit, "phone") == Num(n) && n != 0
    ensures !Incomplete(InitForm(toEdit, families))
    ensures Get(CustomerData(InitForm(toEdit, families)), "phone") == Num(n)
  {
  }

  datatype SaveNotice = MissingInformation | CustomerSaved | SaveFailed(error: StoreError)

  /**
   * `handleSubmit`: an incomplete form writes nothing; in edit mode the
   * customer is put back with the form's fields over its own, otherwise a new
   * customer is added under a fresh local id.
   */
  method HandleSubmit(db: TailorDB, toEdit: Value, f: CustomerForm, now: nat) returns (n: SaveNotice)
    requires db.Valid()
    modifies db
    ensures db.Valid()
    ensures Incomplete(f) ==> n == MissingInformation && db.stores == old(db.stores)
    ensures !Incomplete(f) && Truthy(toEdit) ==>
      var w := PutWrite(old(db.stores[Customers]), Edited(toEdit, f), now);
      n == (if w.outcome.Pass? then CustomerSaved else SaveFailed(w.outcome.error))
      && db.stores == old(db.stores)[Customers := w.table]
    ensures !Incomplete(f) && !Truthy(toEdit) ==>
      var w := AddWrite(old(db.stores[Customers]), CustomerData(f)["_id" := LocalId(now)], now);
      n == (if w.outcome.Pass? then CustomerSaved else SaveFailed(w.outcome.error))
      && db.stores == old(db.stores)[Customers := w.table]
  {
    if Incomplete(f) {
      return MissingInformation;
    }
    var r;
    if Truthy(toEdit) {
      r := db.Put(Customers, Edited(toEdit, f), now);
    } else {
      r := db.Add(Customers, CustomerData(f)["_id" := LocalId(now)], now);
    }
    n := if r.Pass? then CustomerSaved else SaveFailed(r.error);
  }

  /** A new customer is stored under its local id with the form's fields, unsynced; an edit keeps the customer's id. */
  lemma SubmitStores(f: CustomerForm, toEdit: Value, t: Table, now: nat)
    requires !Incomplete(f) && LocalId(now).s !in t
    ensures var w := AddWrite(t, CustomerData(f)["_id" := LocalId(now)], now);
      w.outcome.Pass? && LocalId(now).s in w.table
      && Get(w.table[LocalId(now).s], "name") == f.name && !IsSynced(w.table[LocalId(now).s])
    ensures Field(toEdit, "_id").Str? ==>
      var w := PutWrite(t, Edited(toEdit, f), now);
      w.outcome.Pass? && Field(toEdit, "_id").s in w.table
  {
  }
}
