# TailorDB: a verified model of the tailor shop's offline data layer

The tailor shop app keeps its data in the browser's IndexedDB database
`TailorDB`, version 2. The database has eight object stores, each keyed by
`_id`:

- `users`
- `customers`
- `families`
- `orders`
- `payments`
- `invoices`
- `measurements`
- `templates`

The pages read and write these stores through a few helpers:

- `addData`, `putData`, `getData`, `getAllData`, `updateData` and `deleteData`;
- `clearDB` and `clearAllData`;
- `clearAndBulkAdd`, which replaces every store from a server snapshot in one transaction;
- `loadSampleData`, which loads the demonstration data;
- `syncAllToBackend`, which pushes every local business record to the server and marks the records synced once the server accepts them.

This project models those helpers in Dafny, together with the page logic
built on them:

- the settings page's load, sync and password check;
- the customer list's filters, cascade delete and "mark delivered";
- the order form;
- the customer form;
- invoice creation;
- the templates page's field editor and JSON import;
- the dashboard statistics;
- the message form's placeholder filling.

## How the model is built

The modules follow the program's files:

- **Library modules:**
  - `Wrappers` (Option and Outcome);
  - `Text` (trim, lower case, `includes`, global replace);
  - `JsValues` (JavaScript values, truthiness, `||`, `Number`, `new Date`, `===`);
  - `KeyOrder` (IndexedDB's order on string keys);
  - `Seqs` (filter, stable sort, sums, `find`).
- **`StoreModel`:** the stores as values. A `Table` is a `map<string, Rec>` and a `Db` maps each store name to its table. Every write is a pure function, so lemmas can compose writes.
- **`IndexedDb`:** the class `TailorDB`. Its `stores` field is updated in place by one method per helper. Each method's `ensures` ties the new `stores` to the `StoreModel` function of the old ones. The loops the source runs over records (the cursor behind `getAll`, the refill in `clearAndBulkAdd`, the marking after a push) are methods with loop invariants.
- **`SampleData`:** the demonstration records and what loading them gives.
- **One module per page or modal:**
  - `CustomersPage`
  - `OrderModal`
  - `AddCustomerModal`
  - `InvoicesPage`
  - `TemplatesPage`
  - `Dashboard`
  - `MessageModal`
  - `SettingsPage`

  Pure computations (filters, totals, payloads) are functions with lemmas. Event handlers that write to the database are methods on a `TailorDB`.

Everything outside the model becomes a parameter:

| outside effect | parameter |
|---|---|
| clock | `now: nat` (milliseconds) |
| `navigator.onLine` | `online` |
| stores whose `getAll` fails | `unreadable` |
| `syncFn` | a `Transport` value |
| axios responses | `Fetch`, `PostResult` and `PasswordReply` values |
| `localStorage` and the file chooser | already-parsed values |
| confirm dialogs | `confirmed` |

### Where the code departs from the intended behaviour (the model follows the code)

- The load should leave `users` out of the record total, so that a response carrying only user data counts as empty. `handleLoad` counts `users` (`src/pages/SettingsPage.jsx:133-135`), so a response holding only users replaces every local store (`SettingsPage.UsersOnlyReplaces`).
- A load that gets no records, or whose request fails, should keep the local data and add the samples only as a fallback. The fallback `loadSampleData` starts with `clearAllData` (`src/lib/indexedDB.js:124-125`), so every local customer, order, invoice and payment that is not a sample is lost (`SettingsPage.FallbackDropsLocal`).
- The push payload should hold `users` along with the business stores. `syncAllToBackend` collects only the seven business stores (`src/lib/indexedDB.js:172`).
- The order of `getAll` is meant to be left open, with callers sorting for themselves. IndexedDB lists records in ascending key order, and `StoreModel.Listing` fixes that order.
- A snapshot replace is meant to be all-or-nothing. In `clearAndBulkAdd`, an item without an `_id` makes `store.add` throw synchronously. The loop ends there, and the adds already queued still commit unless one of them met a taken key, so the replace is partial (`StoreModel.BulkReplace`).

## Model

| member | source | states |
|---|---|---|
| JsValues.Truthy | src/pages/CustomersPage.jsx:107 | definition: `undefined`, `null`, `NaN`, `false`, 0 and "" are falsy; everything else is truthy |
| JsValues.Or | src/pages/InvoicesPage.jsx:35-37 | definition: `a \|\| b` is `a` when it is truthy and `b` otherwise |
| JsValues.Spread | src/components/OrderModal.jsx:35 | definition: an object spreads its own fields; any other value spreads none in the model (see "## Left out") |
| JsValues.ParseInteger | src/components/OrderModal.jsx:68 | definition: trimmed text that is blank gives 0, and an optionally signed run of decimal digits gives its value; anything else is NaN |
| JsValues.ToNumber | src/components/OrderModal.jsx:84 | definition: `Number(v)` for the value kinds of the model; `undefined`, objects and lists give NaN |
| JsValues.TimeOf | src/pages/Dashboard.jsx:33 | definition: the time of `new Date(v)` for dates, numbers, `null`, booleans and ISO text; anything else is an invalid date |
| JsValues.StrictEq | src/pages/Dashboard.jsx:39 | definition: primitives are equal by value; objects, lists and dates read from the store never are |
| Text.Trim | src/pages/CustomersPage.jsx:85 | definition: leading and trailing white space removed |
| Text.Lower | src/pages/CustomersPage.jsx:86 | the lower-cased text has the same length, each character lower-cased |
| Text.Includes | src/pages/CustomersPage.jsx:89-90 | `includes` holds exactly when the needle occurs at some index |
| Text.ReplaceAll | src/components/MessageModal.jsx:45-49 | definition: the occurrences of the pattern, found left to right without overlap, are replaced and the replacement is not rescanned |
| Text.Before | src/components/OrderModal.jsx:36-38 | the part before the first separator is a prefix without the separator, followed in the text by the separator when shorter |
| StoreModel.Added | src/lib/indexedDB.js:40 | a record added by `addData` carries both timestamps set to the clock reading; every other field is the caller's |
| StoreModel.Touched | src/lib/indexedDB.js:48-51 | `putData` sets `updatedAt` to the clock and keeps `createdAt` and every other field |
| StoreModel.AsSynced | src/lib/indexedDB.js:111 | a snapshot item is written as synced, with every other field kept |
| StoreModel.AddWrite | src/lib/indexedDB.js:36-42 | definition: `addData` fails on a record without a key or with a key already stored, leaving the table; otherwise it stores the stamped record under its key |
| StoreModel.PutWrite | src/lib/indexedDB.js:43-54 | definition: `putData` fails only on a record without a key; otherwise it stores the touched record under its key, replacing any record there |
| StoreModel.LocalId | src/components/OrderModal.jsx:92 | definition: the id of a record created on the device is `local-` followed by the clock reading |
| StoreModel.AddWriteTwice | src/lib/indexedDB.js:36-42 | once a record is added, a second `addData` with the same `_id` fails with a taken key and leaves the table as it was |
| StoreModel.StoreIndex | src/lib/indexedDB.js:100 | each of the eight stores the upgrade creates has its place in the store list |
| StoreModel.BusinessIndex | src/lib/indexedDB.js:172 | every store except `users` is one of the seven business stores that a push collects |
| StoreModel.Listing | src/lib/indexedDB.js:62-65 | `getAll` returns one record per key, in ascending key order |
| StoreModel.ListingExact | src/lib/indexedDB.js:62-65 | `getAll` returns every stored record and nothing else, each under its own `_id`, with the keys strictly increasing |
| StoreModel.AddEachKeeps | src/lib/indexedDB.js:151-158 | independent `addData` requests never drop or change a stored record, and every record stays under its own key |
| StoreModel.AddEachFresh | src/lib/indexedDB.js:151-158 | records with distinct new keys all go in, stamped, and the store holds exactly the earlier records plus these |
| StoreModel.AddEachIntoEmpty | src/lib/indexedDB.js:151-158 | records with distinct keys added to an empty store give exactly those records, stamped |
| StoreModel.Fill | src/lib/indexedDB.js:104-113 | queuing a store's adds never loses a key or un-syncs a record; a clash, once met, is remembered |
| StoreModel.FillFresh | src/lib/indexedDB.js:104-113 | keyed items with distinct keys fill a cleared store exactly, as synced copies, with no clash |
| StoreModel.FillClashes | src/lib/indexedDB.js:104-113 | an item whose key is already in the store makes the fill clash |
| StoreModel.FillDuplicate | src/lib/indexedDB.js:104-113 | two items of one list that share an `_id` make the fill clash |
| StoreModel.WorkValid | src/lib/indexedDB.js:98-116 | on a valid snapshot, each processed store holds exactly its items and the stores not yet processed are untouched |
| StoreModel.BulkReplace | src/lib/indexedDB.js:98-116 | definition: the eight stores are cleared and refilled in turn in one transaction; a taken key rolls every store back, and a keyless item stops the loop with what was queued before it kept |
| StoreModel.BulkReplaceValid | src/lib/indexedDB.js:98-116 | a snapshot with a key on every item and no duplicates in any store succeeds, and each store then holds exactly its items, marked synced |
| StoreModel.BulkReplaceEmpty | src/lib/indexedDB.js:98-116 | an empty snapshot succeeds and empties all eight stores, `users` included |
| StoreModel.WorkClash | src/lib/indexedDB.js:104-115 | a duplicate key in any store that is still to be filled makes the whole transaction clash |
| StoreModel.BulkReplaceDuplicate | src/lib/indexedDB.js:98-116 | a duplicate `_id` within a store aborts the transaction: the call fails and no store changes |
| StoreModel.WorkSynced | src/lib/indexedDB.js:104-113 | every store the refill touches ends up holding only synced records |
| StoreModel.BulkReplaceSynced | src/lib/indexedDB.js:98-116 | whatever the snapshot, every store the call changes holds only records marked synced |
| StoreModel.Snapshot | src/lib/indexedDB.js:172-188 | the push payload has exactly the seven business stores as its keys |
| StoreModel.SnapshotFrom | src/lib/indexedDB.js:178-188 | a payload built store by store from `getAll`, or `[]` for a store that could not be read, is the snapshot |
| StoreModel.SnapshotAt | src/lib/indexedDB.js:178-188 | each business store's entry in the payload is its listing, or `[]` when it could not be read |
| StoreModel.PushOutcome | src/lib/indexedDB.js:197-242 | the push reports a missing function first and offline second, both with the unsent payload; it counts as synced exactly when the call returns an accepted reply |
| StoreModel.Marked | src/lib/indexedDB.js:222-225 | after an accepted push a record is synced; an unsynced record gets `updatedAt` set to the clock; an already synced record is not rewritten |
| StoreModel.ReconciledTable | src/lib/indexedDB.js:217-231 | marking a store keeps its keys and marks each record |
| StoreModel.ReconciledTableKeyed | src/lib/indexedDB.js:217-231 | marking keeps every record under its own `_id` |
| StoreModel.ReconciledEmpty | src/lib/indexedDB.js:220-222 | a store with an empty listing is left as it is |
| StoreModel.PartlyReconciledStep | src/lib/indexedDB.js:217-231 | marking one more store extends the stores marked so far by exactly that store |
| StoreModel.PartlyReconciledAll | src/lib/indexedDB.js:217-231 | once all seven stores are marked, the database is the reconciled one |
| StoreModel.ReconciledSynced | src/lib/indexedDB.js:217-231 | after an accepted push, every record of every readable business store is synced and keeps its other fields; `users` and the unreadable stores are untouched |
| StoreModel.Reconciled | src/lib/indexedDB.js:217-231 | definition: after an accepted push each readable business store is marked synced record by record; `users` and the unreadable stores stay as they were |
| StoreModel.ReconciledComplete | src/lib/indexedDB.js:217-231 | marking keeps all eight stores present and every record under its own key |
| StoreModel.ReconcileIdempotent | src/lib/indexedDB.js:217-231 | marking a second time changes nothing, whatever the clock says |
| IndexedDb.ReadAll | src/lib/indexedDB.js:62-65 | the cursor that takes the least remaining key each time yields exactly the key-ordered listing |
| KeyOrder.KeyLt | src/lib/indexedDB.js:62-65 | definition: keys are ordered character by character, a proper prefix first |
| IndexedDb.CursorStep | src/lib/indexedDB.js:62-65 | taking the least remaining key keeps the cursor's records equal to the keys visited so far |
| IndexedDb.CursorDone | src/lib/indexedDB.js:62-65 | a cursor with no keys left has produced the listing |
| IndexedDb.FillStore | src/lib/indexedDB.js:104-113 | the loop over one store's items ends in the state the specification function `Fill` describes: the table, whether a clash was met, and whether a keyless item stopped it |
| IndexedDb.ListedAt | src/lib/indexedDB.js:220-222 | the j-th record of the listing is the one stored under the j-th key, and no earlier position repeats that key |
| IndexedDb.MarkStep | src/lib/indexedDB.js:222-229 | writing back the next listed record extends the marked prefix by one key |
| IndexedDb.MarkDone | src/lib/indexedDB.js:217-231 | once the whole listing has been written back, the store is the reconciled one |
| IndexedDb.MarkRecords | src/lib/indexedDB.js:218-230 | the puts for one store's listing leave exactly the reconciled store, with every record under its own key |
| IndexedDb.MarkAllStep | src/lib/indexedDB.js:217-231 | marking the i-th business store from its payload entry advances the partial reconciliation by that store |
| IndexedDb.MarkNext | src/lib/indexedDB.js:217-231 | one pass of the store loop advances the partial reconciliation by one store |
| IndexedDb.MarkAll | src/lib/indexedDB.js:217-231 | the whole marking loop ends in the reconciled database |
| IndexedDb.TailorDB.Open | src/lib/indexedDB.js:7-34 | opening the database keeps every existing store's records and creates each missing store empty |
| IndexedDb.TailorDB.Upgrade | src/lib/indexedDB.js:8-33 | `upgrade` creates exactly the missing stores, empty, and keeps the existing ones |
| IndexedDb.TailorDB.Add | src/lib/indexedDB.js:36-42 | a record without a key fails with an invalid key; a taken key fails with a duplicate; otherwise the record is stored under its key, stamped; no other store changes |
| IndexedDb.TailorDB.Put | src/lib/indexedDB.js:43-54 | a record without a key fails; otherwise it is inserted or replaces the one under its key, with `updatedAt` set |
| IndexedDb.TailorDB.Get | src/lib/indexedDB.js:57-60 | returns a record exactly when one is stored under the id, and that record carries the id |
| IndexedDb.TailorDB.GetAll | src/lib/indexedDB.js:62-65 | returns the store's listing |
| IndexedDb.TailorDB.Delete | src/lib/indexedDB.js:75-80 | removes exactly the key, which may be missing; nothing else changes |
| IndexedDb.TailorDB.ClearDB | src/lib/indexedDB.js:82-88 | every store is emptied, `users` included |
| IndexedDb.TailorDB.ClearAllData | src/lib/indexedDB.js:90-96 | `users` is kept and the seven business stores are emptied |
| IndexedDb.TailorDB.ClearAndBulkAdd | src/lib/indexedDB.js:98-116 | the outcome and the new stores are those of the snapshot replacement `BulkReplace` (all stores replaced, rolled back on a clash, partial after a keyless item) |
| IndexedDb.TailorDB.AddAll | src/lib/indexedDB.js:151-158 | adding a list with one request per record gives the store `AddEach` describes |
| IndexedDb.TailorDB.LoadCatalog | src/lib/indexedDB.js:123-158 | after the load, `users` is untouched, `payments` and `invoices` are empty, and each other business store holds the catalog's records added to an empty store |
| IndexedDb.TailorDB.LoadSampleData | src/lib/indexedDB.js:119-163 | the business stores are cleared and then hold exactly the sample records, each added by its own request |
| IndexedDb.TailorDB.SyncAllToBackend | src/lib/indexedDB.js:168-243 | the outcome is that of pushing the snapshot of the business stores; the stores are reconciled exactly when the push succeeded, and are unchanged otherwise |
| IndexedDb.TailorDB.MarkAllSynced | src/lib/indexedDB.js:217-231 | the puts after an accepted push reconcile the database the payload was read from |
| SampleData.Family | src/lib/indexedDB.js:130-131 | a sample family carries its `_id`, `synced: true` and its owner |
| SampleData.Customer | src/lib/indexedDB.js:134-136 | a sample customer is owned, synced and names its family |
| SampleData.Order | src/lib/indexedDB.js:139-140 | a sample order is owned, synced and names its customer |
| SampleData.Measurement | src/lib/indexedDB.js:143 | a sample measurement is owned, synced and names its customer and its template |
| SampleData.Template | src/lib/indexedDB.js:146 | a sample template is owned and synced |
| SampleData.SampleFamiliesFit | src/lib/indexedDB.js:129-132 | the sample families have the distinct keys `family-1` and `family-2` and are all owned and synced |
| SampleData.SampleCustomersFit | src/lib/indexedDB.js:133-137 | the sample customers have the distinct keys `cust-1` to `cust-3` |
| SampleData.SampleOrdersFit | src/lib/indexedDB.js:138-141 | the sample orders have the distinct keys `order-1` and `order-2` |
| SampleData.SampleMeasurementsFit | src/lib/indexedDB.js:142-144 | the sample measurement has the key `meas-1` |
| SampleData.SampleTemplatesFit | src/lib/indexedDB.js:145-147 | the sample template has the key `temp-1` |
| SampleData.SampleListsFit | src/lib/indexedDB.js:129-147 | every sample list has distinct `_id`s and holds only synced records owned by the user |
| SampleData.SampleCustomersLinked | src/lib/indexedDB.js:129-137 | every sample customer's `familyId` names a sample family |
| SampleData.SampleOrdersLinked | src/lib/indexedDB.js:133-141 | every sample order's `customerId` names a sample customer |
| SampleData.SampleMeasurementsLinked | src/lib/indexedDB.js:133-144 | the sample measurement's `customerId` names a sample customer |
| SampleData.SampleMeasurementsTemplated | src/lib/indexedDB.js:142-147 | the sample measurement's `templateId` names the sample template |
| SampleData.SamplesValid | src/lib/indexedDB.js:129-147 | the sample catalog is fit to load: distinct keys, owned and synced records, and every reference resolving within the catalog |
| SampleData.LoadedTable | src/lib/indexedDB.js:151-158 | adding distinct keyed records to an empty store gives exactly their keys, each holding its own record, stamped |
| SampleData.LoadedStamped | src/lib/indexedDB.js:151-158 | after the load, every stored record is synced, owned by the user and stamped with the load time |
| SampleData.LoadedRefers | src/lib/indexedDB.js:151-158 | a reference that resolves within the lists still resolves between the loaded stores |
| SampleData.LoadedStore | src/lib/indexedDB.js:151-158 | a loaded store holds exactly its list's keys, every record stamped |
| SampleData.LoadsInTurn | src/lib/indexedDB.js:149-158 | clearing and then adding the five lists in turn is a load of the catalog |
| SampleData.SampleLoaded | src/lib/indexedDB.js:119-163 | after the load, the families, customers, orders, measurements and templates stores hold exactly the catalog's keys, and every business record is synced, owned and stamped |
| SampleData.SamplesReplaceLocal | src/lib/indexedDB.js:119-163 | after loading the samples, the customers store holds exactly `cust-1` to `cust-3`, the orders store exactly `order-1` and `order-2`, and invoices and payments are empty |
| SampleData.SampleLinksResolve | src/lib/indexedDB.js:119-163 | after the load, every stored customer names a stored family, every order and measurement a stored customer, and every measurement a stored template |
| CustomersPage.SelectedExactly | src/pages/CustomersPage.jsx:85-96 | the search and family filters keep each customer that passes both, as many times as it occurs, and nothing else |
| CustomersPage.Matches | src/pages/CustomersPage.jsx:87-91 | definition: the lower-cased name contains the lower-cased term, or the phone contains it |
| CustomersPage.Selected | src/pages/CustomersPage.jsx:85-96 | definition: a non-blank search keeps the matching customers, then a selected family keeps that family's customers, in list order |
| CustomersPage.SelectedMembers | src/pages/CustomersPage.jsx:85-96 | a customer is kept exactly when it is in the list and passes the search and family filters |
| CustomersPage.LatestOrder | src/pages/CustomersPage.jsx:99-100 | no latest order exactly when the customer has no orders; otherwise it is one of them, and none of them was created later |
| CustomersPage.Annotate | src/pages/CustomersPage.jsx:98-102 | an annotated customer carries its order count, whether any measurement is its own, and its latest order; every other field is kept |
| CustomersPage.AnnotatedMembers | src/pages/CustomersPage.jsx:98-102 | the annotated list holds exactly the annotations of the listed customers |
| CustomersPage.ShownSorted | src/pages/CustomersPage.jsx:103-111 | the list shown is ordered by `updatedAt`, newest first |
| CustomersPage.StatusMatches | src/pages/CustomersPage.jsx:107 | definition: the customer has a latest order whose status equals the filter, both lower-cased |
| CustomersPage.Shown | src/pages/CustomersPage.jsx:82-115 | definition: the selected customers annotated, sorted by `updatedAt` newest first, then kept by the status filter when one is set |
| CustomersPage.DetailedMembers | src/pages/CustomersPage.jsx:85-103 | before the status filter, a record is listed exactly when it annotates a customer that passes the search and family filters |
| CustomersPage.ShownMembers | src/pages/CustomersPage.jsx:82-115 | a record is shown exactly when it annotates a customer that passes the search, family and status filters |
| CustomersPage.RelatedKeysMembers | src/pages/CustomersPage.jsx:123-128 | a key is deleted exactly when some listed record of the customer carries it |
| CustomersPage.RelatedKeys | src/pages/CustomersPage.jsx:123-124 | definition: the keys of the listed records whose `customerId` is the customer's |
| CustomersPage.RelatedKeysStep | src/pages/CustomersPage.jsx:123-128 | each further listed record adds its own key when it belongs to the customer and has a key |
| CustomersPage.PrunedStep | src/pages/CustomersPage.jsx:123-130 | one more turn of the delete loop keeps the store equal to the start minus the customer's keys met so far |
| CustomersPage.DeleteRelated | src/pages/CustomersPage.jsx:123-130 | deleting a customer's records removes exactly their keys from the one store; it succeeds exactly when every such record has a key |
| CustomersPage.DeleteCustomer | src/pages/CustomersPage.jsx:118-138 | unconfirmed, nothing changes; confirmed, the customer and its listed orders and measurements are removed and no other store changes |
| CustomersPage.CascadeComplete | src/pages/CustomersPage.jsx:118-138 | when the page's list is the store's listing, what remains is exactly the records that are not the customer's |
| CustomersPage.DeliveredOrder | src/pages/CustomersPage.jsx:186 | the delivered order is marked `delivered` and unsynced, with its other fields kept |
| CustomersPage.CashPayment | src/pages/CustomersPage.jsx:187-195 | the payment record is a full cash payment for the order and customer, unsynced |
| CustomersPage.Advance | src/pages/CustomersPage.jsx:191 | definition: the order's advance, or 0 when it is falsy |
| CustomersPage.FullPayment | src/pages/CustomersPage.jsx:187-195 | the payment takes a fresh local id and is a full cash payment for the customer's latest order |
| CustomersPage.FullPaymentSettles | src/pages/CustomersPage.jsx:187-195 | with a numeric total, the advance plus the payment equals the total |
| CustomersPage.MarkDelivered | src/pages/CustomersPage.jsx:179-205 | without a latest order, or unconfirmed, nothing changes; otherwise the order is put back as delivered, then the payment is added, and a failing put stops before the payment |
| OrderModal.AddItem | src/components/OrderModal.jsx:60 | adding an item appends a copy of the initial item and keeps the others |
| OrderModal.RemoveAddedItem | src/components/OrderModal.jsx:60-61 | removing the item just added gives back the list |
| OrderModal.UpdateItem | src/components/OrderModal.jsx:62-66 | only item i changes, and only in the field being set |
| OrderModal.UpdateItemTwice | src/components/OrderModal.jsx:62-66 | setting a field twice keeps only the second value |
| OrderModal.LineAmount | src/components/OrderModal.jsx:68 | definition: an item's quantity times its rate, each `Number(...)` or 0 |
| OrderModal.CalcTotal | src/components/OrderModal.jsx:68 | definition: the sum of the items' line amounts |
| OrderModal.WithAmount | src/components/OrderModal.jsx:82 | definition: the item with its line amount stored as `amount` |
| OrderModal.CalcTotalAddItem | src/components/OrderModal.jsx:60-68 | adding a new item leaves the total unchanged, since its rate is 0 |
| OrderModal.CalcTotalRemoveItem | src/components/OrderModal.jsx:61-68 | removing an item takes exactly its quantity times rate off the total |
| OrderModal.CalcTotalUpdateItem | src/components/OrderModal.jsx:62-68 | editing an item changes the total by the change in its amount, and a field other than quantity or rate leaves the total as it was |
| OrderModal.Payload | src/components/OrderModal.jsx:78-86 | the saved order is unsynced, takes the form's customer or else the modal's, stores `Number(advance)` or 0 as the advance and the form's `calcTotal` as `totalAmount`, and keeps every other form field |
| OrderModal.SumOfSavedAmounts | src/components/OrderModal.jsx:68-83 | the sum of the amounts stored on the items equals the form's total |
| OrderModal.PayloadTotal | src/components/OrderModal.jsx:78-86 | the saved items are the form's items in order, each keeping its own fields and carrying quantity times rate as `amount`, and `totalAmount` is the sum of those amounts |
| OrderModal.AdvanceDefault | src/components/OrderModal.jsx:84 | an empty, zero or missing advance is saved as 0 |
| OrderModal.Submit | src/components/OrderModal.jsx:70-94 | without a customer nothing is written; an order with an `_id` is put back; otherwise it is added under a fresh local id; the notice reports the write's outcome |
| OrderModal.DateOnly | src/components/OrderModal.jsx:37-38 | the date shown has no `T` and is a prefix of the stored text; a missing date gives "" |
| OrderModal.BeforeAbsent | src/components/OrderModal.jsx:37-38 | text without a `T` is kept whole |
| OrderModal.DateOnlyCuts | src/components/OrderModal.jsx:37-38 | a date-time keeps exactly what precedes its first `T`, and cutting twice changes nothing |
| OrderModal.Editable | src/components/OrderModal.jsx:34-38 | definition: building the edit form does not throw exactly when the order's date is falsy or text, `items` is falsy or a list, and every item is an object-like value whose date is falsy or text |
| OrderModal.EditForm | src/components/OrderModal.jsx:34-38 | for an order the form can be built from, the edit form is the stored order with the delivery dates, the order's and each item's, cut to the date; everything else is kept |
| OrderModal.Init | src/components/OrderModal.jsx:28-54 | without an order id, a new form for the customer; an id that is not a key, or a stored order whose form would throw, leaves the modal without a form; an id not stored closes the modal; otherwise the stored order's form |
| AddCustomerModal.InitialFamily | src/components/AddCustomerModal.jsx:36-41 | the form starts on the customer's family when that family is listed, and on "none" otherwise |
| AddCustomerModal.InitForm | src/components/AddCustomerModal.jsx:32-49 | a new customer gets a blank form; an edited one gets its own name, phone and address whatever their kind, or "" for a falsy one, and its family as `InitialFamily` chooses |
| AddCustomerModal.CustomerData | src/components/AddCustomerModal.jsx:62-68 | the saved fields are the form's values as they are, "none" is stored as no family, and the record is unsynced |
| AddCustomerModal.Edited | src/components/AddCustomerModal.jsx:73 | an edit keeps the customer's `_id` and its other fields, with the form's fields on top |
| AddCustomerModal.InitFormSaved | src/components/AddCustomerModal.jsx:32-68 | a saved customer reopens as the same form, a falsy address coming back as "" |
| AddCustomerModal.NumericPhoneKept | src/components/AddCustomerModal.jsx:34-65 | a customer whose phone is stored as a number reopens with it, passes the name-and-phone check, and is saved with the number |
| AddCustomerModal.HandleSubmit | src/components/AddCustomerModal.jsx:51-77 | an incomplete form writes nothing; an edit is put back; a new customer is added under a fresh local id |
| AddCustomerModal.SubmitStores | src/components/AddCustomerModal.jsx:62-76 | a new customer is stored, unsynced, under its fresh local id, and an edit stays under the customer's id |
| InvoicesPage.Charge | src/pages/InvoicesPage.jsx:36-37 | a discount or tax that does not parse counts as 0 |
| InvoicesPage.Subtotal | src/pages/InvoicesPage.jsx:35 | definition: the order's `totalAmount`, or 0 when it is falsy |
| InvoicesPage.Total | src/pages/InvoicesPage.jsx:38 | definition: the subtotal minus the discount plus the tax, with JavaScript's `-` and `+` |
| InvoicesPage.NewInvoice | src/pages/InvoicesPage.jsx:40-56 | the invoice takes its id from the clock and its number is `INV-` plus that id; it takes the order's id, customer and items, is a draft with nothing paid, and the amount remaining equals the total |
| InvoicesPage.InvoiceRecord | src/pages/InvoicesPage.jsx:40-56 | the stored invoice is keyed by its id |
| InvoicesPage.InvoiceBalances | src/pages/InvoicesPage.jsx:35-38 | with a numeric order total, the invoice total and the amount remaining are the subtotal minus the discount plus the tax |
| InvoicesPage.NumericTotal | src/pages/InvoicesPage.jsx:38 | the total formula over a numeric subtotal is integer arithmetic |
| InvoicesPage.InvoiceWithoutTotal | src/pages/InvoicesPage.jsx:35 | an order without a total is invoiced from a subtotal of 0 |
| InvoicesPage.CreateInvoice | src/pages/InvoicesPage.jsx:27-68 | without a selected order nothing is written; otherwise the invoice is added and the notice reports the outcome |
| InvoicesPage.SameMillisecondRefused | src/pages/InvoicesPage.jsx:40-42 | a second invoice in the same millisecond collides with the first and is refused |
| InvoicesPage.CustomerName | src/pages/InvoicesPage.jsx:103-106 | the name of the first customer with that id, or "N/A" when no customer has it or the name is empty |
| TemplatesPage.SkipSpace | src/pages/TemplatesPage.jsx:34 | skipping leading whitespace gives a suffix that does not start with whitespace |
| TemplatesPage.CollapseSpace | src/pages/TemplatesPage.jsx:34 | after each run of whitespace is replaced by `_`, no whitespace is left |
| TemplatesPage.CollapseSpaceNone | src/pages/TemplatesPage.jsx:34 | text without whitespace is left as it is |
| TemplatesPage.CollapseSpaceFrom | src/pages/TemplatesPage.jsx:34 | every character of the result is `_` or a character of the input |
| TemplatesPage.Slug | src/pages/TemplatesPage.jsx:34 | a field key holds no whitespace and no capital letter |
| TemplatesPage.LowerNone | src/pages/TemplatesPage.jsx:34 | text without capitals is its own lower case |
| TemplatesPage.SlugIdempotent | src/pages/TemplatesPage.jsx:34 | a key is its own slug |
| TemplatesPage.SlugPlain | src/pages/TemplatesPage.jsx:34 | a label without capitals or whitespace is kept as it is |
| TemplatesPage.Unfilled | src/pages/TemplatesPage.jsx:53 | definition: the template has no name or no fields |
| TemplatesPage.SkipSpaceRun | src/pages/TemplatesPage.jsx:34 | a whole run of whitespace is skipped at once |
| TemplatesPage.CollapseSpaceRun | src/pages/TemplatesPage.jsx:34 | a run of whitespace of any length between two words becomes a single `_` |
| TemplatesPage.CollapseSpaceWord | src/pages/TemplatesPage.jsx:34 | the characters before the first whitespace are copied as they are |
| TemplatesPage.NewField | src/pages/TemplatesPage.jsx:33-38 | a new field is keyed by the slug of its English label and keeps the labels and the unit |
| TemplatesPage.AddMeasurementField | src/pages/TemplatesPage.jsx:24-42 | an empty English label changes nothing; otherwise the field is appended and the inputs are reset |
| TemplatesPage.RemoveMeasurementField | src/pages/TemplatesPage.jsx:44-49 | only entry idx is removed and the rest keep their order; an index out of range changes nothing |
| TemplatesPage.RemoveAddedField | src/pages/TemplatesPage.jsx:24-49 | removing the field just added gives back the form |
| TemplatesPage.TemplateRecord | src/pages/TemplatesPage.jsx:60 | the template is keyed by the clock reading and stores the form's fields |
| TemplatesPage.Submit | src/pages/TemplatesPage.jsx:51-70 | an unnamed or empty template writes nothing; otherwise it is added under the clock reading, and the form is reset only once it is saved |
| TemplatesPage.Rekeyed | src/pages/TemplatesPage.jsx:103 | an imported template gets the clock reading as `_id` and keeps every other field |
| TemplatesPage.ImportRunStores | src/pages/TemplatesPage.jsx:102-104 | a successful import stores each template under its new id and keeps every record that was there before |
| TemplatesPage.ImportRun | src/pages/TemplatesPage.jsx:102-104 | definition: the templates are added in turn, each rekeyed with its own clock reading, and the first failing add ends the run |
| TemplatesPage.ImportSameMillisecond | src/pages/TemplatesPage.jsx:102-104 | two templates imported within the same millisecond collide, so the import fails |
| TemplatesPage.ImportStep | src/pages/TemplatesPage.jsx:102-104 | one turn of the import loop either adds the template and continues, or stops with the add's failure |
| TemplatesPage.ImportingStep | src/pages/TemplatesPage.jsx:102-104 | one more add keeps the loop on its specification or ends the import with that add's failure |
| TemplatesPage.AddTemplates | src/pages/TemplatesPage.jsx:102-104 | the loop leaves the templates store as `ImportRun` describes, and succeeds exactly when every add did |
| TemplatesPage.ImportFromJson | src/pages/TemplatesPage.jsx:90-115 | unparsable text fails and a value that is not a list is ignored, both writing nothing; a list is imported in turn |
| Dashboard.CustomerOf | src/pages/Dashboard.jsx:39 | an order's customer is undefined exactly when no customer has its `customerId`, and is otherwise the first that does |
| Dashboard.RecentOrders | src/pages/Dashboard.jsx:37-41 | each recent order keeps its fields and gains its customer |
| Dashboard.InMonth | src/pages/Dashboard.jsx:33 | definition: the payment's `createdAt` is a valid date on or after the start of the month |
| Dashboard.AmountOf | src/pages/Dashboard.jsx:34 | definition: the payment's amount, or 0 when it is falsy or not a number |
| Dashboard.MonthlyIncome | src/pages/Dashboard.jsx:31-34 | definition: the sum of the amounts of the payments in the month |
| Dashboard.Newest | src/pages/Dashboard.jsx:37-38 | definition: the orders sorted newest first by `createdAt`, cut to five |
| Dashboard.Refresh | src/pages/Dashboard.jsx:20-47 | while anything is loading the view is unchanged; once all three lists have loaded, the totals are the list sizes and the income and recent orders are recomputed |
| Dashboard.MonthlyIncomeSplit | src/pages/Dashboard.jsx:31-34 | this month's income plus the amounts of the other payments is the sum over all payments, so each payment is counted once |
| Dashboard.MonthlyIncomeNone | src/pages/Dashboard.jsx:31-34 | a month with no payment has no income |
| Dashboard.MonthlyIncomeAppend | src/pages/Dashboard.jsx:31-34 | one more payment adds its amount to the income exactly when it falls in the month |
| Dashboard.FilterAppend | src/pages/Dashboard.jsx:33 | filtering a list with one more element adds that element exactly when it passes |
| Dashboard.NewestOrders | src/pages/Dashboard.jsx:37-38 | at most five orders are shown, newest first, all from the list, and no order left out is newer than any shown |
| Dashboard.RecentOrdersSorted | src/pages/Dashboard.jsx:37-41 | the recent orders stay newest first once their customers are joined |
| MessageModal.Substitute | src/components/MessageModal.jsx:45-49 | a missing value fills in as "", and text fills in as itself |
| MessageModal.Substitutions | src/components/MessageModal.jsx:45-49 | there are five placeholders, each starting with `{` |
| MessageModal.ReplaceEach | src/components/MessageModal.jsx:45-49 | definition: each placeholder in turn is replaced everywhere in the text the previous replacements left |
| MessageModal.FillTemplate | src/components/MessageModal.jsx:42-52 | without a customer the template is kept as it is |
| MessageModal.ReplaceEachSkip | src/components/MessageModal.jsx:45-49 | replacements whose placeholders do not occur leave the text alone |
| MessageModal.ReplaceEachNoBrace | src/components/MessageModal.jsx:45-49 | text without `{` is not changed by any replacement |
| MessageModal.ReplaceEachJoin | src/components/MessageModal.jsx:45-49 | every occurrence of a placeholder between brace-free pieces is replaced, not just the first |
| MessageModal.FillsEveryOccurrence | src/components/MessageModal.jsx:42-52 | filling a template in for a customer replaces every occurrence of a placeholder by its text |
| MessageModal.NoBraceUnchanged | src/components/MessageModal.jsx:42-52 | a template without placeholders is sent as it is |
| MessageModal.LoadTemplates | src/components/MessageModal.jsx:13-31 | the stored list when the stored text parses to an array, and an empty list otherwise |
| SettingsPage.OrEmpty | src/pages/SettingsPage.jsx:122-129 | a truthy field is kept, and any falsy one becomes `[]` |
| SettingsPage.Normalize | src/pages/SettingsPage.jsx:121-130 | each store gets the server's field or `[]`; `families` falls back on `familys` before `[]` |
| SettingsPage.Records | src/pages/SettingsPage.jsx:141 | definition: the records of a normalised list; a value that is not a list gives none |
| SettingsPage.Total | src/pages/SettingsPage.jsx:133-135 | definition: the sum of the lengths of all eight normalised lists, `users` included |
| SettingsPage.Replaces | src/pages/SettingsPage.jsx:119-140 | definition: the server's data is an object and its total is above 0 |
| SettingsPage.ServerPayload | src/pages/SettingsPage.jsx:141 | the snapshot handed to `clearAndBulkAdd` names all eight stores, each with the normalised records |
| SettingsPage.TotalZero | src/pages/SettingsPage.jsx:133-135 | the total is 0 exactly when all eight lists are empty |
| SettingsPage.UsersOnlyReplaces | src/pages/SettingsPage.jsx:119-142 | a response holding only users still replaces the local stores |
| SettingsPage.FallbackDropsLocal | src/lib/indexedDB.js:119-163 | when the server's copy is not used, the customers and orders stores hold only the sample keys afterwards, and invoices and payments are empty, whatever was stored locally |
| SettingsPage.HandleLoad | src/pages/SettingsPage.jsx:106-182 | loaded from the server exactly when the response is an object with records and the replace succeeds; otherwise the sample data is loaded over what the server step left |
| SettingsPage.SyncFn | src/pages/SettingsPage.jsx:62-74 | definition: a rejected request, or a body of `null` or `undefined` whose `syncedIds` cannot be read, returns `{success: false, error}`; any other resolved request returns `{success: true, syncedIds}` |
| SettingsPage.SyncFnOutcomes | src/pages/SettingsPage.jsx:62-74 | through this `syncFn` a push is never a network error; it is offline exactly without a connection, synced exactly when online and the request resolves with a body that is neither `null` nor `undefined`, and a failed sync otherwise |
| SettingsPage.NullBodyFails | src/pages/SettingsPage.jsx:69-73 | a request that resolves with a `null` body ends as a failed sync |
| SettingsPage.HandleSync | src/pages/SettingsPage.jsx:60-104 | success exactly when online and the request resolves with a readable body, and only then do `lastSync` and the stores change; offline exactly without a connection |
| SettingsPage.HandlePasswordChange | src/pages/SettingsPage.jsx:207-238 | a new password under six characters is refused before any request; otherwise the request is sent, and the form is cleared on success or kept with an error message on failure |

## Left out

- Records are JSON-like values (`JsValues.Value`). Numbers are integers, so fractional values are not modelled: `InvoiceInput` holds integers, decimal text such as "12.5" reads as NaN (that is, 0 in the totals), and floating-point rounding does not arise.
- Object keys, store keys and `_id`s are strings. Numeric and array keys are not modelled.
- `JsValues.TimeOf`: text is read as a date only in the UTC forms `YYYY-MM-DD`, `YYYY-MM-DDTHH:MM:SSZ` and `YYYY-MM-DDTHH:MM:SS.sssZ`. Other text is an invalid date in the model: it sorts with key 0 and never compares as on or after a date. JavaScript also reads other forms. Some of them, such as `YYYY-MM-DDTHH:MM:SS` without a zone, are read in the local time zone, which the model does not have.
- `Text.Lower`: lower-casing covers the ASCII letters only. White space for `trim` and `\s` is JavaScript's full set (`Text.IsSpace`).
- `String.prototype.replace` replacement patterns such as `$&` in placeholder texts are not modelled. Texts are inserted literally.
- Converting an object or array to text gives "" in `JsValues.ToText`. The source would give `[object Object]` or a joined list.
- Non-numeric truthy amounts count as 0 where the source would compute `NaN` or concatenate strings.
- Password length counts characters, not UTF-16 code units.
- `Promise.all` in the page loaders runs its requests one after the other. The concurrency of IndexedDB requests and transactions is not modelled, and neither are the page re-reads (`fetchData`) after each write.
- The clock, `navigator.onLine`, confirm dialogs, axios, `localStorage` and the file reader are parameters. Toasts, alerts, console logging and navigation are not modelled.
- `updateData` is the same operation as `putData` and is modelled by `IndexedDb.TailorDB.Put`.
- A server snapshot entry that is not an array gives no records. The source would throw inside `clearAndBulkAdd` on a non-iterable value.
- `AddCustomerModal.InitialFamily`: a `familyId` that is not text starts the form on "none".
- `MessageModal.FillsEveryOccurrence`: covers templates made of brace-free pieces around one placeholder, where no earlier placeholder occurs and the inserted text has no `{`. Arbitrary templates are not covered.
- `InvoicesPage.NewInvoice`: `_id` and `invoiceNumber` come from one clock reading. The source reads `Date.now()` twice, and the two readings could differ by a millisecond.
- `handleSend` in the message form (building the WhatsApp link) is not modelled. It only opens a URL.
- `handleProfileUpdate` on the settings page is not modelled. It sends the profile form with one `PUT` request and shows a toast. It touches no store.
- The re-read after `addItem` in `useIndexedDB` is not modelled. It sits outside the core helpers.
- `CustomersPage.StatusMatches`: an order whose `status` is not text compares as "". The source would throw on `toLowerCase`.
- `CustomersPage.Matches`: a truthy `name` or `phone` that is not text reads as "". In the source, `toLowerCase` or `includes` throws there, the filtering effect stops, and the previous list stays on screen.
- `JsValues.ParseInteger`: only optionally signed decimal integers are read. `Number` also accepts hexadecimal, binary and octal prefixes, exponents, decimal points and `Infinity`, and the model reads all of these as NaN, that is, 0 in the totals.
- `JsValues.ToNumber`: a list gives NaN. JavaScript gives 0 for an empty list and the number of the single element for a one-element list.
- `KeyOrder.KeyLt`: keys are compared by Unicode code point. IndexedDB compares UTF-16 code units, so the two orders differ only between characters above U+FFFF and characters from U+E000 to U+FFFF.
- `JsValues.Spread`: a string or a list spreads no fields in the model. JavaScript spreads a string's characters and a list's elements under the keys "0", "1", and so on. This reaches `TemplatesPage.Rekeyed` for an imported template that is not an object, and `OrderModal.TrimItem` and `OrderModal.WithAmount` for an item that is not an object.
- One clock reading (`now`) stands for every clock reading of an operation. The source reads the clock again at each `new Date()` and `Date.now()`, and the readings could differ by a millisecond. This applies to the per-record `updatedAt` of the sync marking (`src/lib/indexedDB.js:225`), and to the `local-` id together with `addData`'s stamps in `OrderModal.Submit`, `AddCustomerModal.HandleSubmit`, `CustomersPage.MarkDelivered`, `TemplatesPage.Submit` and `TemplatesPage.ImportRun`.
- Sort comparators over an invalid date (`src/pages/CustomersPage.jsx:100`, `src/pages/CustomersPage.jsx:103`, `src/pages/Dashboard.jsx:37`) return NaN, which JavaScript's sort treats as 0, and the resulting order is then implementation-defined. The model gives an invalid date the key 0 (`JsValues.SortTime`), which is one consistent choice among those orders.
- Storage failures other than a taken key or a missing key, such as an exceeded quota or a transaction aborted from outside, are not modelled.
- `StoreModel.Added`: `createdAt` and `updatedAt` come from one clock reading. The source calls `new Date()` twice, and the two readings could differ by a millisecond.
