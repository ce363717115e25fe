/**
 * The settings page's data actions: loading the server's copy into the
 * local stores (with sample data as the fallback), pushing local records
 * to the server, and the check on a new password.
 */
module SettingsPage {
  import opened Wrappers
  import opened JsValues
  import opened Seqs
  import opened StoreModel
  import opened SampleData
  import opened IndexedDb

  /* ----------------------------------------------------------------- load */

  /** What `axios.get(.../sync/loadAllFromMongo)` gave: a failed request, or the response body. */
  datatype Fetch = RequestFailed | Fetched(body: Value)

  /** `response.data?.data` */
  function ServerData(f: Fetch): Value {
    if f.Fetched? then Field(f.body, "data") else Undefined
  }

  /** `serverData && typeof serverData === "object"`: objects, arrays and dates, never `null`. */
  predicate IsObject(v: Value) {
    v.Obj? || v.List? || v.Date?
  }

  /** `v || []` */
  function OrEmpty(v: Value): (r: Value)
    ensures Truthy(v) ==> r == v
    ensures !Truthy(v) ==> r == List([])
  {
    Or(v, List([]))
  }

  /** `normalizedData`: one value for each of the eight stores. */
  datatype Normalized = Normalized(users: Value, customers: Value, families: Value, orders: Value,
                                   invoices: Value, payments: Value, measurements: Value, templates: Value)
  {
    /** `normalizedData[s.Name()]` */
    function Of(s: StoreName): Value {
      match s
      case Users => users
      case Customers => customers
      case Families => families
      case Orders => orders
      case Invoices => invoices
      case Payments => payments
      case Measurements => measurements
      case Templates => templates
    }
  }

  /**
   * Each store gets the server's field, or an empty list when that field is
   * falsy; `families` falls back on the misspelt `familys` before the empty
   * list, so a present `families` field wins even when `familys` is also set.
   */
  function Normalize(data: Value): (n: Normalized)
    ensures forall s :: s != Families ==> n.Of(s) == OrEmpty(Field(data, s.Name()))
    ensures Truthy(Field(data, "families")) ==> n.families == Field(data, "families")
    ensures !Truthy(Field(data, "families")) && Truthy(Field(data, "familys")) ==> n.families == Field(data, "familys")
    ensures !Truthy(Field(data, "families")) && !Truthy(Field(data, "familys")) ==> n.families == List([])
  {
    Normalized(OrEmpty(Field(data, "users")), OrEmpty(Field(data, "customers")),
               Or(Field(data, "families"), OrEmpty(Field(data, "familys"))),
               OrEmpty(Field(data, "orders")), OrEmpty(Field(data, "invoices")), OrEmpty(Field(data, "payments")),
               OrEmpty(Field(data, "measurements")), OrEmpty(Field(data, "templates")))
  }

  /** `totalRecords`: `Object.values(normalizedData).map(arr => arr?.length || 0).reduce(+)`, `users` included. */
  function Total(n: Normalized): nat {
    Length(n.users) + Length(n.customers) + Length(n.families) + Length(n.orders)
    + Length(n.invoices) + Length(n.payments) + Length(n.measurements) + Length(n.templates)
  }

  /** The records a normalised value gives `clearAndBulkAdd`: the objects of a list. */
  function Records(v: Value): seq<Rec> {
    if v.List? then Map(v.items, Spread) else []
  }

  /** `normalizedData` as handed to `clearAndBulkAdd`: exactly the eight stores. */
  function ServerPayload(n: Normalized): (p: Payload)
    ensures forall s: StoreName :: s in p && p[s] == Records(n.Of(s))
  {
    var p := map s | s in AllStores :: Records(n.Of(s));
    assert forall s: StoreName :: s in p by {
      forall s: StoreName ensures s in p {
        assert AllStores[StoreIndex(s)] == s;
      }
    }
    p
  }

  /** The server's copy replaces the local stores: it is an object and holds at least one record. */
  predicate Replaces(f: Fetch) {
    IsObject(ServerData(f)) && Total(Normalize(ServerData(f))) > 0
  }

  /** The stores after the server step: replaced when the server's copy was used, untouched otherwise. */
  function AfterServer(db: Db, f: Fetch): Db {
    if Replaces(f) then BulkReplace(db, ServerPayload(Normalize(ServerData(f)))).db else db
  }

  /** The total is 0 exactly when every one of the eight lists is empty. */
  lemma TotalZero(n: Normalized)
    ensures Total(n) == 0 <==> forall s: StoreName :: Length(n.Of(s)) == 0
  {
    if Total(n) != 0 {
      var s: StoreName :| Length(n.Of(s)) != 0 by {
        if Length(n.users) != 0 { assert Length(n.Of(Users)) != 0; }
        else if Length(n.customers) != 0 { assert Length(n.Of(Customers)) != 0; }
        else if Length(n.families) != 0 { assert Length(n.Of(Families)) != 0; }
        else if Length(n.orders) != 0 { assert Length(n.Of(Orders)) != 0; }
        else if Length(n.invoices) != 0 { assert Length(n.Of(Invoices)) != 0; }
        else if Length(n.payments) != 0 { assert Length(n.Of(Payments)) != 0; }
        else if Length(n.measurements) != 0 { assert Length(n.Of(Measurements)) != 0; }
        else { assert Length(n.Of(Templates)) != 0; }
      }
    }
  }

  /** A response holding nothing but users still counts as data, so it replaces the local stores. */
  lemma UsersOnlyReplaces(f: Fetch)
    requires IsObject(ServerData(f))
    requires Field(ServerData(f), "users").List? && Field(ServerData(f), "users").items != []
    ensures Replaces(f)
  {
    assert Normalize(ServerData(f)).Of(Users) == Field(ServerData(f), "users");
  }

  /**
   * `handleLoad`: when the server's copy is an object with records, it
   * replaces every store in one transaction and counts as loaded only if
   * that transaction succeeds. Otherwise (a failed request, no object, no
   * records, or a failed replace) the sample data for the user is loaded
   * over whatever the server step left.
   */
  method HandleLoad(db: TailorDB, fetch: Fetch, user: Value, now: int) returns (fromServer: bool)
    requires db.Valid()
    modifies db
    ensures db.Valid()
    ensures fromServer <==> Replaces(fetch) && BulkReplace(old(db.stores), ServerPayload(Normalize(ServerData(fetch)))).outcome.Pass?
    ensures fromServer ==> db.stores == AfterServer(old(db.stores), fetch)
    ensures !fromServer ==> Loads(db.stores, AfterServer(old(db.stores), fetch), Samples(Field(user, "_id")), now)
  {
    fromServer := false;
    var data := ServerData(fetch);
    if IsObject(data) && Total(Normalize(data)) > 0 {
      var r := db.ClearAndBulkAdd(ServerPayload(Normalize(data)));
      fromServer := r.Pass?;
    }
    if !fromServer {
      db.LoadSampleData(Field(user, "_id"), now);
    }
  }

  /**
   * When the server's copy is not used (a failed request, no object, or no
   * records), the fallback does not keep the local business data: every
   * customer and order that is not a sample is gone, and invoices and
   * payments are emptied, however much the local stores held.
   */
  lemma FallbackDropsLocal(d: Db, db: Db, f: Fetch, user: Value, now: int)
    requires !Replaces(f)
    requires Loads(d, AfterServer(db, f), Samples(Field(user, "_id")), now)
    ensures d[Customers].Keys == {"cust-1", "cust-2", "cust-3"}
    ensures d[Orders].Keys == {"order-1", "order-2"}
    ensures d[Invoices] == map[] && d[Payments] == map[]
  {
    assert AfterServer(db, f) == db;
    SamplesReplaceLocal(d, db, Field(user, "_id"), now);
  }

  /* ----------------------------------------------------------------- sync */

  /** How `axios.post(.../sync/syncAllToMongo)` ends: it rejects, or it resolves with a response body. */
  datatype PostResult = PostFailed(error: Value) | PostOk(body: Value)

  /** `response.data.syncedIds` can be read: the body is neither `null` nor `undefined`. */
  predicate Readable(body: Value) {
    !body.Null? && !body.Undefined?
  }

  /** The `TypeError` that reading a field of `null` or `undefined` throws. */
  const ReadError := Obj(map["name" := Str("TypeError")])

  /** The request went through and its body could be read. */
  predicate Delivered(r: PostResult) {
    r.PostOk? && Readable(r.body)
  }

  /**
   * `syncFn`: a rejected request, and a body whose `syncedIds` cannot be
   * read, are caught in the same `try` and reported as `{success: false}`,
   * never thrown.
   */
  function SyncFn(post: Payload -> PostResult): Transport {
    Function(p =>
      match post(p)
      case PostFailed(e) => Returned(Obj(map["success" := Bool(false), "error" := e]))
      case PostOk(body) =>
        if Readable(body) then Returned(Obj(map["success" := Bool(true), "syncedIds" := Field(body, "syncedIds")]))
        else Returned(Obj(map["success" := Bool(false), "error" := ReadError])))
  }

  /**
   * Pushed through this `syncFn`, a push is offline exactly when there is no
   * connection, succeeds exactly when the request resolves with a readable
   * body, and otherwise ends as `sync-failed`: it is never a network error.
   */
  lemma SyncFnOutcomes(post: Payload -> PostResult, online: bool, payload: Payload)
    ensures var o := PushOutcome(SyncFn(post), online, payload);
      !o.NetworkError? && !o.NoSyncFn?
      && (o.Offline? <==> !online)
      && (o.Synced? <==> online && Delivered(post(payload)))
      && (o.SyncFailed? <==> online && !Delivered(post(payload)))
  {
    if online {
      match post(payload)
      case PostFailed(e) =>
        assert !Accepted(Obj(map["success" := Bool(false), "error" := e]));
      case PostOk(body) =>
        if Readable(body) {
          assert Accepted(Obj(map["success" := Bool(true), "syncedIds" := Field(body, "syncedIds")]));
        } else {
          assert !Accepted(Obj(map["success" := Bool(false), "error" := ReadError]));
        }
    }
  }

  /** A request that resolves with an empty (`null`) body is a failed sync, not a success. */
  lemma NullBodyFails(payload: Payload)
    ensures PushOutcome(SyncFn(p => PostOk(Null)), true, payload).SyncFailed?
  {
    SyncFnOutcomes(p => PostOk(Null), true, payload);
  }

  datatype SyncNotice = SyncSucceeded | SyncOffline | SyncError

  /**
   * `handleSync`: pushes through `syncFn`; `lastSync` takes the time shown
   * (`when`) only after a successful push, an offline push is reported as
   * such, and every other outcome is an error.
   */
  method HandleSync(db: TailorDB, post: Payload -> PostResult, online: bool, unreadable: set<StoreName>,
                    now: int, when: string, lastSync: Option<string>) returns (notice: SyncNotice, lastSync': Option<string>)
    requires db.Valid()
    modifies db
    ensures db.Valid()
    ensures notice == SyncSucceeded <==> online && Delivered(post(Snapshot(old(db.stores), unreadable)))
    ensures notice == SyncOffline <==> !online
    ensures lastSync' == if notice == SyncSucceeded then Some(when) else lastSync
    ensures db.stores == if notice == SyncSucceeded then Reconciled(old(db.stores), unreadable, now) else old(db.stores)
  {
    var out := db.SyncAllToBackend(SyncFn(post), online, unreadable, now);
    SyncFnOutcomes(post, online, Snapshot(old(db.stores), unreadable));
    if out.Success() {
      notice, lastSync' := SyncSucceeded, Some(when);
    } else if out.Reason() == "offline" {
      notice, lastSync' := SyncOffline, lastSync;
    } else {
      notice, lastSync' := SyncError, lastSync;
    }
  }

  /* ------------------------------------------------------------- password */

  /** `passwordForm` */
  datatype PasswordForm = PasswordForm(oldPassword: string, newPassword: string)

  /** How `axios.put(.../user/changePassword)` ends: it resolves, or it rejects with an error. */
  datatype PasswordReply = Resolved | Rejected(error: Value)

  datatype PasswordNotice = TooShort | PasswordChanged | ChangeFailed(message: Value)

  /** What `handlePasswordChange` shows, the form after it, and whether a request was sent. */
  datatype PasswordOutcome = PasswordOutcome(notice: PasswordNotice, form: PasswordForm, requested: bool)

  /**
   * `handlePasswordChange`: a new password under six characters is refused
   * before any request, whatever the server would have said; otherwise the
   * form is cleared on success and kept, with the server's message or a
   * default one, on failure.
   */
  function HandlePasswordChange(form: PasswordForm, reply: PasswordReply): (r: PasswordOutcome)
    ensures |form.newPassword| < 6 ==> r == PasswordOutcome(TooShort, form, false)
    ensures |form.newPassword| >= 6 ==> r.requested
    ensures |form.newPassword| >= 6 && reply.Resolved? ==> r.notice == PasswordChanged && r.form == PasswordForm("", "")
    ensures |form.newPassword| >= 6 && reply.Rejected? ==>
      r.form == form && r.notice.ChangeFailed? && Truthy(r.notice.message)
      && (Truthy(Field(Field(Field(reply.error, "response"), "data"), "error")) ==>
            r.notice.message == Field(Field(Field(reply.error, "response"), "data"), "error"))
  {
    if |form.newPassword| < 6 then PasswordOutcome(TooShort, form, false)
    else
      match reply
      case Resolved => PasswordOutcome(PasswordChanged, PasswordForm("", ""), true)
      case Rejected(e) =>
        PasswordOutcome(ChangeFailed(Or(Field(Field(Field(e, "response"), "data"), "error"), Str("Failed to change password."))), form, true)
  }
}
