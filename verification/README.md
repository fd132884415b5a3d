# Verified model of the vinyl store

A Dafny model of the two parts of the vinyl record store API that carry its logic: the inventory and order
handlers, which work concurrently on one document store, and the query pipeline behind its listings.
`dafny verify dfyconfig.toml` checks the whole project.

## What is modelled

**Protocol.** A handler is a program of single store calls, each of them atomic (`GetRecord`, `SaveRecord`,
`DecrementStock`, `GetOrder`, `SaveOrder`). `protocol.dfy` gives each request in flight a frame (arguments, loop
index, local copies of documents); `Act` performs the next store call of a frame. A schedule is any sequence of
labels: requests arriving, and calls advancing by one store call, which may also fail. `Exec` carries out a
schedule, so a statement about `Exec(s, ls)` for all `ls` is about every interleaving of any number of calls of
every handler.

- `invariant.dfy`: what every interleaving keeps.
- `ledger.dfy`, `conservation.dfy`: the books. Every call is charged, from its own frame, with what it took,
  restored, restocked or edited in. Stock and live orders follow from the calls up to two losses, each computed
  from the step that causes it: stock written over by saving an outdated copy, and orders marked cancelled twice.
  A run is *fresh* if every save finds its document as the saving call read it, and a state is *settled* if all
  calls have ended and none with a store error. An order is *live* if it is not cancelled.
- `progress.dfy`: every call ends after so many of its own store calls, and nothing blocks.
- `provenance.dfy`: where the items of saved orders come from.
- `overlap.dfy`: runs in which nobody writes a document between a call's read and its save are fresh.
- `cancellation.dfy`, `archived.dfy`, `race.dfy`: how often units come back, the archived flag and what orders can
  still take of an archived record, and N orders racing for one record.
- `witness.dfy`: schedules on which the unconditional claims fail.
- `serial.dfy`, `ordering.dfy`, `refund.dfy`, `catalog.dfy`: whole calls run alone (`Play`), and serial histories.
- `handlers.dfy`: the handlers as imperative methods on a store object whose calls can fail, each proved to do
  what `Play` says and, in terms of the documents alone, to give the client what the request asks for: every
  answer with its exact condition and every field that changes. `Serial.PlayIsARun` shows that `Play` is a
  schedule of the step system.

**Queries.** `query.dfy` models filter documents with equality, `$in`, `$gte`, `$gt`, `$lte` and `$lt`, an
evaluator for them, the compilation of record filters, and sort keys; `paging.dfy` selects, sorts and pages;
`inventory.dfy` has the counting loop and slice paging of the inventory listing.

**Patches.** `patch.dfy` has the field-by-field merge of an update and its algebra.

## Facts about the code that the model respects

- An order that fails at a later line does not put back the units of its earlier lines (handlers/order.go:90-113):
  a refused order leaves the store as it was if and only if already its first line is refused
  (`Ordering.RefusedUnchangedExactlyWhen`).
- Saves replace whole documents (store/mongo.go:326-330). Conservation is therefore false in general: see
  `Witness.LostRestock` and `Witness.RestoredTwice`. `Conservation.ConservesExactlyWhen` gives the condition under
  which a single store call conserves, and `FreshRun` and `NoOverlap` conditions under which whole runs do.
- An order's units can come back twice, in two ways. Two overlapping cancellations can both succeed
  (`Witness.RestoredTwice`). And a cancellation that the store fails after its restores leaves the order pending, so
  that cancelling again restores again, without any overlap (handlers/order.go:269-289, `Witness.RestoredByRetry`).
  In every interleaving the units come back once for the change of status, once more for every time the order is
  marked cancelled again, and as far as cancellations got that have not reported it cancelled
  (`Cancellation.RestoredCount`). So they come back in step with the status if and only if no step marks the order
  again and no cancellation of it is left halfway (`RestoredOnceExactlyWhen`).
- A save of a copy read before an archiving puts the record back on sale (`Witness.ArchivingUndone`):
  `Cancellation.ArchivedExactlyWhen` and `ArchivedStays`.
- The archived check and the decrement of an order line are two store calls, so a record archived between them is
  still sold (`Witness.SoldAfterArchiving`). A store call takes units of an archived record if and only if its call
  is past the check of it and its current line fits the stock (`Archived.TakenExactlyWhen`). While a record stays
  archived, at most the current lines of the calls past the check are taken (`TakenAtMostPending`), some fresh run takes
  exactly those (`MostThatIsTaken`), and so fresh runs sell nothing of it if and only if no call is past the check
  (`NeverSoldExactlyWhen`).
- An update with a body always sets the stock; an omitted stock becomes 0 (handlers/record.go:250-252).
- The repository's README lists cancelling as open to the owner only; the code also lets an administrator cancel
  (handlers/order.go:258). The model follows the code.

## Assumptions

- The id generator never repeats an id: a label whose generated id is taken does not apply.
- A store call that fails has no effect.
- Prices are exact numbers and quantities and stocks are mathematical integers that fit the machine's.
- `required` on a price is taken as `min=0`, the weaker reading.
- Page and page size are at least 1, skip is (page - 1) * page size and limit is the page size; the pagination
  package is not part of this model.
- Equal sort keys keep the order of the collection (`Paging.SortIsStable` shows that `Sort` does so).
- Contracts about answers are for stores whose documents are kept under their own ids (`Keyed`), as every reachable one is.

## Model

| member | source | states |
|---|---|---|
| Models.NewOrder | models/order.go:47-65 | the accumulated total is the sum of price times quantity over the items, and the new order is pending with the given id, creation time, user, items and address |
| Models.TotalSnoc | models/order.go:47-65 | one more item adds exactly its price times its quantity to the total |
| Patches.Merge | handlers/record.go:223-255 | field by field: a given text, year or price replaces the stored one and an omitted one leaves it, the stock is the request's whenever there is a body or a stock, and id, creation time and archived flag stay |
| Patches.HistoryIsOnePatch | handlers/record.go:223-257 | any sequence of updates equals one combined update, sending the sequence again changes nothing, id, creation time and archived flag survive, and valid updates keep a valid record valid |
| Patches.LastTextWins | handlers/record.go:223-255 | in a history of updates the last request that gives a title, artist, label, catalogue number or description decides it |
| Patches.LastChoiceWins | handlers/record.go:238-246 | likewise format, genre and condition |
| Patches.LastNumberWins | handlers/record.go:229-252 | likewise year and price, and the last request with a body or a stock decides the stock, an omitted stock in a body being 0 |
| Patches.TextsStay | handlers/record.go:223-255 | a text that no request of a history gives stays as it was |
| Patches.ChoicesStay | handlers/record.go:238-246 | likewise format, genre and condition |
| Patches.NumbersStay | handlers/record.go:229-252 | likewise year and price, and the stock if no request has a body or a stock |
| Patches.CombineAllConcat | handlers/record.go:223-255 | combining is associative over whole sequences, with the empty request as unit |
| Invariant.AlwaysOk | handlers/record.go:187-258 | in every interleaving of all handlers every stored record and every in-flight copy stays valid with stock at least 0, orders are for at least one unit of stored records with total equal to their items' sum, order contents never change and status goes only from pending to cancelled, and every reported success stays true |
| Invariant.ActCreateOrderOk | handlers/order.go:88-134 | each store call of an order keeps the invariant: the items are the passed lines, and a saved order is well formed |
| Invariant.ActCancelOrderOk | handlers/order.go:246-291 | each store call of a cancellation keeps the invariant, also when its copies are outdated |
| Ledger.StockLedger | handlers/order.go:88-134 | in every interleaving the stock of each record moves by exactly what calls restored, restocked and edited minus what they took, plus the stock written over by saves of outdated copies |
| Ledger.OrderLedger | handlers/order.go:124-134 | in every interleaving units in live orders are those placed minus those undone, plus those cancelled a second time |
| Ledger.ActStock | store/mongo.go:326-354 | one store call changes a record's stock by what its frame gained or gave plus the staleness of the copy it saves |
| Conservation.Conserved | handlers/order.go:88-134 | in every interleaving, store errors included, shelf + live orders + held + dropped - returning - restocked - edited changes only by the two losses |
| Conservation.ConservesExactlyWhen | store/mongo.go:326-330 | one store call keeps every record's balance if and only if the stock it writes over is the stock it read and the order it marks is not cancelled yet |
| Conservation.FreshStockIsExact | handlers/order.go:246-289 | if every save finds its document as it was read, at every moment the stock has moved by exactly restocked + edited + restored - taken |
| Conservation.SettledConserves | handlers/order.go:246-289 | between two states in which all calls have ended without store errors, such a run keeps stock + live orders + dropped - restocked - edited |
| Conservation.OrdersConserve | handlers/order.go:88-134 | under every schedule of any number of order calls, store errors included, stock + live orders + held + dropped is constant for each record |
| Conservation.NoOversell | store/mongo.go:334-354 | under every such schedule the units sold, held and dropped never exceed the starting stock |
| Progress.CallsEnd | handlers/order.go:88-134 | in every interleaving no call makes more store calls than its frame allows, and one that has made so many has ended |
| Progress.OrderCallEnds | handlers/order.go:88-134 | an order call ends after at most 2 * lines + 1 of its own store calls, whatever the others do, and makes exactly so many if it succeeds |
| Progress.CancellationEnds | handlers/order.go:246-289 | a cancellation ends after at most 2 * items + 2 of its own store calls, whatever the others do, and makes exactly so many if it succeeds |
| Progress.AllCanEnd | handlers/order.go:88-291 | nothing blocks: from every reachable state all calls end if the store answers |
| Provenance.ItemsAreFromShelf | handlers/order.go:90-121 | in every interleaving from no calls, each item of an order being built or saved carries the id, title, artist and price that a record had, unarchived, at an earlier moment of the run |
| Overlap.NoOverlapIsFresh | store/mongo.go:326-330 | if no write to a document lands between a call's read of it and that call's save of it, every save finds its document as it was read |
| Cancellation.ReportsCount | handlers/order.go:263-289 | in every interleaving, stale saves and store errors included, the successful cancellations of an order number its change of status plus the times it was marked cancelled again |
| Cancellation.ReportsCountExactlyWhen | handlers/order.go:263-289 | successful cancellations equal the change of status if and only if no step marks the order cancelled when it already is |
| Cancellation.RestoredCount | handlers/order.go:269-289 | in every interleaving, stale saves and store errors included, an order's units come back once for its change of status, once more for every time it is marked again, and as far as cancellations got that have not reported it cancelled |
| Cancellation.RestoredOnceExactlyWhen | handlers/order.go:263-289 | from a state in which no cancellation of it is halfway, in every interleaving, an order's units come back exactly once if it was cancelled and not at all otherwise if and only if no step marks it again and no cancellation of it is left halfway |
| Cancellation.SettledRestoredOnce | handlers/order.go:269-289 | corollary: if all calls have ended without store errors at both ends, this holds if and only if no step marks the order again |
| Cancellation.ReportsCountCancellations | handlers/order.go:263-289 | corollary of `ReportsCount`: fresh runs mark no order again, so their successful cancellations are its change of status |
| Cancellation.RestoredAtMostOnce | handlers/order.go:269-289 | corollary of `RestoredOnceExactlyWhen`: a fresh run that leaves no cancellation of an order halfway restores its units once if it was cancelled, and it is cancelled at most once |
| Cancellation.TakenIsDemandSoFar | handlers/order.go:90-113 | in every reachable state an order call has taken, and a failed one has dropped, exactly the demand of the lines it passed |
| Cancellation.CreateThenCancelIsNothing | handlers/order.go:88-289 | a successful order and its successful cancellation weigh nothing together on any record, whatever happened in between, stale saves included |
| Cancellation.RoundTripLeavesTheRest | handlers/order.go:88-289 | in fresh runs the stock is then accounted for by the other calls alone |
| Cancellation.ArchivedExactlyWhen | handlers/inventory.go:122-147 | one store call keeps an archived record archived if and only if it does not save a copy read before the archiving |
| Cancellation.ArchivedStays | handlers/record.go:274-292 | in fresh runs the archived flag is one-way |
| Archived.TakenExactlyWhen | handlers/order.go:100-113 | a store call takes units of an archived record if and only if its call is past the archived check of it and its current line fits the stock |
| Archived.TakenAtMostPending | handlers/order.go:90-113 | in every interleaving during which a record stays archived, the units taken of it and the current lines of calls past its check do not grow in total, and units once taken stay taken |
| Archived.NoneIsTaken | handlers/order.go:90-113 | without a call past the check, nothing is taken of the record while it stays archived, and no call gets past the check |
| Archived.MostThatIsTaken | handlers/order.go:90-113 | from every reachable state with an archived record, the most that fresh runs take of it is exactly the sum of the current lines of the calls past its check |
| Archived.NeverSoldExactlyWhen | handlers/order.go:100-113 | no fresh run takes a unit of an archived record if and only if no order call is past its check |
| Archived.NeverSoldInRunExactlyWhen | handlers/order.go:100-113 | in an interleaving, stale saves included, no unit is taken of a record while it is archived if and only if in that time no call past its check moves with enough stock |
| Race.RaceIsFair | store/mongo.go:332-354 | N concurrent orders for q units of one record with stock s: under every schedule exactly min(N, s / q) succeed and s - q * successes units are left |
| Witness.LostRestock | handlers/inventory.go:122-147 | two overlapping restocks by 3 and 2 both report success and leave 7 units of 5 |
| Witness.RestoredTwice | handlers/order.go:263-289 | two overlapping cancellations of one order both succeed and restore its units twice |
| Witness.RestoredByRetry | handlers/order.go:269-289 | a cancellation whose status write fails and a second one after it restore an order's units twice, in a fresh run that marks the order once |
| Witness.ArchivingUndone | handlers/record.go:274-292 | a restock overlapping a successful archiving puts the record back on sale |
| Witness.SoldAfterArchiving | handlers/order.go:100-106 | units of a record archived after the check are still taken, even in a fresh run |
| Serial.PlayIsARun | handlers/order.go:88-134 | a whole call, store errors included, is a schedule in which only that call advances, and all its saves are fresh |
| Serial.SerialIsFresh | handlers/order.go:88-291 | every serial history is a fresh schedule of the step system |
| Serial.SerialConserves | handlers/order.go:263-289 | serial histories without store errors keep stock + live orders + dropped - restocked - edited, so a repeated cancellation adds nothing |
| Protocol.OrderArrives | handlers/order.go:74-86 | an arriving order is refused as invalid, refused as unauthenticated, or let in with all its lines, and exactly when |
| Protocol.RequestsArrive | handlers/order.go:238-244 | every other arriving request is let in as it is, with its caller's role, unless its id is empty or its record invalid |
| Ordering.OrderIsAnswered | handlers/order.go:74-134 | a whole order request is invalid, unauthenticated or, if the store answers, successful exactly when the lines are malformed, the user is missing, or all lines together can be served |
| Ordering.OrderIsSaved | handlers/order.go:89-134 | on success every record goes down by its demand over all lines and one pending order is saved with, for each line, its id and quantity and its record's title, artist and price |
| Ordering.OrderIsRefused | handlers/order.go:90-113 | otherwise no order is saved, a feasible prefix of lines has been taken, and the reported reason is exactly that of the next line |
| Ordering.CreateOrderDoes | handlers/order.go:88-134 | a whole order call takes some k lines, lowers each record by exactly its demand over them and changes nothing else, saves the order exactly on success, and otherwise reports why line k is refused |
| Ordering.CreateOrderSucceedsExactlyWhen | handlers/order.go:89-122 | alone and without store errors an order succeeds if and only if every id exists and is on sale and each record's demand over all lines is at most its stock; otherwise the longest feasible prefix is taken; a request that passes the checks is this call |
| Ordering.RefusedUnchangedExactlyWhen | handlers/order.go:90-113 | a refused order, alone and without store errors, leaves the store unchanged if and only if its first line by itself is refused |
| Ordering.RefusedSingleLine | handlers/order.go:90-113 | a refused single-line order leaves the store unchanged |
| Ordering.LineOrderDoesNotMatter | handlers/order.go:89-129 | permuting the lines changes neither success nor the stocks after success nor the total |
| Refund.CancelOrderDoes | handlers/order.go:246-291 | a whole cancellation is refused without change exactly when the order is missing, belongs to another user and the caller is no administrator, or is not pending; otherwise it raises each record by the order's units and marks the order cancelled; a request that names an order is this call |
| Refund.CancellationIsAnswered | handlers/order.go:239-267 | each refusal is reported exactly on its condition, and the request succeeds exactly for the order's owner or an administrator while the order is pending |
| Refund.CancellationRestores | handlers/order.go:269-289 | on success every record rises by the order's units and only this order's status changes; a refusal changes nothing |
| Refund.CreateThenCancel | handlers/order.go:88-291 | a successful order followed by its owner's cancellation restores every record exactly, on any feasible lines, repeats included |
| Refund.ArchivedIsFrozen | handlers/order.go:100-103 | a whole create, restock, archive or record-creation call leaves an archived record untouched and saves no order for it |
| Refund.ArchivedIsNeverSold | handlers/inventory.go:131-134 | over every history of calls that do not overlap an archived record stays archived and no order takes a unit of it (for overlapping calls see `Archived.NeverSoldExactlyWhen`) |
| Catalog.RestockDoes | handlers/inventory.go:114-145 | every answer of a restock with its exact condition, and on success only that record's stock rises by the quantity |
| Catalog.ArchiveDoes | handlers/record.go:266-292 | every answer of an archiving with its exact condition, and on success only that record's flag is set |
| Catalog.UpdateAnswers | handlers/record.go:201-221 | every answer of an update with its exact condition, the accepted values written out |
| Catalog.UpdateDoes | handlers/record.go:223-260 | a successful update changes exactly the given fields of that record, and an unsuccessful one nothing |
| Catalog.CreateRecordDoes | handlers/record.go:70-93 | a creation succeeds exactly on acceptable values, written out, and then stores the unarchived record with the requested fields under the new id and touches no other document |
| Handlers.MongoStore.DecrementStock | store/mongo.go:334-354 | one atomic guarded decrement: it succeeds exactly if the id exists with at least that stock, and then lowers only that stock |
| Handlers.MongoStore.SaveRecord | store/mongo.go:326-330 | the whole document is replaced or inserted, unless the store fails |
| Handlers.Handler.CreateOrder | handlers/order.go:74-137 | the call is that of the step system; invalid, unauthenticated and successful exactly when the lines are malformed, the user is missing, or all lines together can be served; on success all stocks and every field of the saved order, line by line; on refusal the exact reason |
| Handlers.Handler.CancelOrder | handlers/order.go:238-292 | the call is that of the step system; each refusal exactly on its condition, success exactly for the owner or an administrator of a pending order, and then every record rises by the order's units and only its status changes |
| Handlers.Handler.RestockRecord | handlers/inventory.go:114-155 | the call is that of the step system; every answer with its exact condition, the archived check before the quantity, and the exact change |
| Handlers.Handler.UpdateRecord | handlers/record.go:201-263 | the call is that of the step system; every answer with its exact condition, and the updated record field by field |
| Handlers.Handler.ArchiveRecord | handlers/record.go:266-295 | the call is that of the step system; every answer with its exact condition, and only the flag is set |
| Handlers.Handler.CreateRecord | handlers/record.go:70-96 | the call is that of the step system; success exactly on acceptable values, and the stored record field by field |
| Query.CompilationIsRight | store/mongo.go:374-405 | the compiled filter document is true of a record exactly if it is unarchived and meets every set field of the query |
| Query.DocumentSays | store/mongo.go:374-405 | the filter document field by field, with its operators and values |
| Query.BuildFilter | store/mongo.go:374-405 | the conditional additions build a document that selects exactly the wanted records |
| Query.GetFilteredRecords | store/mongo.go:373-451 | the answer is the requested page of the sorted wanted records and the number of wanted records |
| Query.BuildSort | store/mongo.go:414-429 | the sort document for each sort parameter, written out, and that it orders records as the parameter asks, and not at all without one |
| Query.RecordPagesCover | store/mongo.go:373-450 | all pages read one after the other are exactly the unarchived records that meet every set field, each as often as stored, by price, year or creation time as asked and in collection order otherwise; later pages are empty |
| Query.TotalIsWhatPagesDeliver | store/mongo.go:407-450 | the total announced for any page, page size and sort key is the number of records that reading all pages of the query delivers |
| Query.BuildOrderFilter | store/mongo.go:474-477 | the filter document, written out, for an order query selects exactly the orders of that user with the status asked for |
| Query.GetOrdersByUser | store/mongo.go:473-506 | the answer is the requested page of the user's orders with the status asked for, newest first, and their number |
| Query.OrderPagesCover | store/mongo.go:473-506 | all pages read one after the other are the user's orders with the status text asked for, latest creation time first, each as often as it is listed, and later pages are empty |
| Paging.PagesPartition | store/mongo.go:431-435 | the pages up to the page count concatenate to the list and every later page is empty |
| Paging.PageCountIsCeiling | store/mongo.go:431-435 | the page count is the number of matches divided by the page size, rounded up |
| Paging.PageHas | store/mongo.go:431-435 | a page holds the elements from position (page - 1) * page size on, in order, at most a page size of them |
| Paging.SortIsStable | store/mongo.go:414-429 | elements with equal sort keys keep the order of the collection |
| Paging.SortByNothing | store/mongo.go:414-429 | without a sort key the list stays as it is |
| Paging.SkipIsProduct | store/mongo.go:431-435 | the elements before a page number (page - 1) times the page size |
| Inventory.GetAllRecords | store/mongo.go:356-371 | the filter document selects exactly the unarchived records, in collection order |
| Inventory.ListInventory | handlers/inventory.go:34-97 | item k of a page carries id, title, artist and stock of record (page - 1) * page size + k on sale, low exactly if 1 <= stock <= 5 and to reorder exactly if stock is 0; the counters count the records on sale with stock 0 and with other stock up to 5; over all pages they equal the flags, the low one if and only if no stock on sale is negative |
| Inventory.PageShows | handlers/inventory.go:53-88 | what item k of a page shows of its record, field by field |
| Inventory.OnSaleHas | store/mongo.go:356-371 | the records on sale are exactly the unarchived ones |
| Inventory.Tally | handlers/inventory.go:49-70 | the loop builds one item per record and counts the records with stock 0 and those with other stock up to 5, which are the items flagged for reorder and those flagged low or with negative stock |
| Inventory.Slice | handlers/inventory.go:72-88 | slice paging stays in bounds and equals skip and limit |
| Inventory.CountersAgreeExactlyWhen | handlers/inventory.go:53-70 | what the loop counts as low equals the number of items flagged low if and only if no stock is negative |
| Inventory.ReachableInventory | handlers/inventory.go:44-97 | in every reachable state what is counted low is what is flagged low over all pages; low, out-of-stock and healthy items partition the inventory; and the pages show every unarchived record of the store exactly once and nothing else |
| Inventory.InventoryPagesCover | handlers/inventory.go:72-88 | the pages concatenate to the whole inventory |

## Left out

- HTTP binding, rendering, headers and the validator library: requests carry the constraints of their `validate` tags, and the address is not validated.
- `UpdatedAt` and `updated_at`: clocks are parameters, and only creation times are kept.
- User handlers, login, administrator and owner middleware, JWT, Redis, idempotency, rate limiting, tracing, health checks and configuration: they do not touch stock or orders.
- `GetOrder`, `GetRecord`, `ListRecords` and `ListOrders` as handlers: single reads around the queries that are modelled.
- `GetAllUsers` and `GetAllOrders`: the same paging without a filter.
- `SeedData` and restarts: seeding overwrites stock and flags.
- The Mongo driver, cursors and indexes, and errors after a write has taken effect.
- Concurrency inside a listing: a query is answered from one state of its collection, although the count and the page are two calls.
- Rounding of floating-point prices and overflow of machine integers.
