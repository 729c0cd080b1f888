# Order management: a verified model of the order book services

This project models the service layer of a small order-management system in Dafny and proves its
properties. The system keeps order books, orders resting in those books, and executions that fill
them.

A **book** is a name with an open/closed flag. Clients **add**, **edit** (supersede) and **delete**
orders while a book is open. Once the book is closed, an **execution** can be triggered against it.
An execution fills the book's active orders greedily, in time priority:
- only orders on the side the execution consumes qualify: an OFFER fills BUY orders and an ASK fills SELL orders;
- the order must be on the execution's instrument, at a compatible price, and have something left to fill;
- qualifying orders are taken oldest first, each giving `min(its remaining quantity, what is left)`.

A **report** summarises one book:
- its status;
- its completed orders and its pending orders;
- its execution history.

Each of the three services holds a repository (a table) and an in-memory cache. The model makes
both of them fields of a Dafny class:

- `BookRegistry.BookService`:
  - the BOOKS table and the cache, each a `map<string, bool>` from name to "is closed";
  - a ghost log of the rows saved.
- `OrderRegistry.OrderService`:
  - the ORDERS table as `map<int, OrderEntity>` plus the next id it will assign;
  - the per-book cache of active orders as `map<string, seq<OrderEntity>>`;
  - a ghost log of every row passed to the table's `save`, in call order.
- `ExecutionLog.ExecutionService`:
  - the EXECUTIONS table as a sequence whose row `i` has id `i + 1`;
  - the per-book history as `map<string, seq<ExecutionEntity>>`.

The matching pipeline has two layers:
- `Matching` states it as pure functions. `EligibleOrders` is the filter, `SortByEntryDate` is a
  stable insertion sort, and `Fills` is the greedy pass. Their composition is `MatchUpdates`, and
  the lemmas there prove what the pass does.
- `ExecutionService.FillCandidates` is the imperative loop the services run. It is proved to write
  exactly `Fills(candidates, quantity)`, in that order, through `OrderService.UpdateOrder`.

`Scenarios` replays the repository's own service tests on the six-order test fixture.

Modelling choices:
- Prices are integers and entry dates are integer timestamps. The source only compares them.
- Ids are unbounded integers. A nullable Java value is an `Option`. A thrown exception is a
  `Failure`/`Fail` carrying one constructor of `Model.Error`.
- `start` buckets `ActiveRows(store, nextId)`: the stored rows with ids `1 .. nextId - 1`
  that are active, in ascending id. That order is an assumption, listed under "Left out".
- **Fills reach the cache through aliasing.** In Java, a fill changes `remainingQuantity` on the
  cached order object itself, and `updateOrder` only saves the row. The model's `UpdateOrder`
  therefore writes the row to the table and to every entry with the same id in the cached list of
  the row's book (`ReplaceInCache`).
- **Editing an order into another book.** `editOrder` updates only the list of the edited order's
  new book. The old entry stays in its old book's list, still active. A later execution on the old
  book can fill that stale entry, and saving the fill stores the retired row as active again. The
  model keeps this behaviour exactly as written. For that reason "every cached entry equals its
  stored row" is not an invariant. What is proved is weaker:
  - every cached entry sits in its own book's list and refers to a stored row (`Valid`);
  - no list holds an id twice (`CacheDistinct`). Every mutator preserves this, and `Start` from an
    empty cache establishes it.

## Model

| member | source | states |
|---|---|---|
| Entities.ToEntity | src/main/java/com/orderManagement/entity/OrderEntity.java:45-52 | a new row has no id and no predecessor, is active, and has remaining = quantity; its client-visible fields are the order's, with the id cleared |
| Entities.BeanRoundTrip | src/main/java/com/orderManagement/entity/OrderEntity.java:45-62 | converting a row to its bean and back keeps every shared field and resets exactly id, remaining quantity, activity and back-reference |
| Entities.ToBean | src/main/java/com/orderManagement/entity/OrderEntity.java:58-62 | copies the shared fields of a row into a bean; `BeanRoundTrip` states which fields a row-to-bean-to-row trip keeps and which it resets |
| Entities.IsOrderComplete | src/main/java/com/orderManagement/entity/OrderEntity.java:68-70 | complete iff nothing remains to fill; `NewOrderComplete` and `CompletedPendingMembers` state what it selects |
| Entities.NewOrderComplete | src/main/java/com/orderManagement/entity/OrderEntity.java:45-70 | a freshly converted order is complete iff it was placed for quantity 0 |
| Converters.EncodeBoolean | src/main/java/com/orderManagement/converter/BooleanConverter.java:11-21 | null stays null, true/false become "1"/"0", and decoding the column gives the value back |
| Converters.DecodeBoolean | src/main/java/com/orderManagement/converter/BooleanConverter.java:23-28 | the result is null iff the column is null |
| Converters.DecodeBooleanText | src/main/java/com/orderManagement/converter/BooleanConverter.java:23-28 | only "0" decodes to false; every other text decodes to true |
| Converters.BooleanCanonicalText | src/main/java/com/orderManagement/converter/BooleanConverter.java:11-28 | decode-then-encode gives the text back iff the text is "0" or "1" |
| Converters.EncodeOrderType | src/main/java/com/orderManagement/converter/OrderTypeToStringConverter.java:12-18 | decoding the encoded name gives the constant back |
| Converters.DecodeOrderTypeSpellings | src/main/java/com/orderManagement/converter/OrderTypeToStringConverter.java:21-26 | decoding yields BUY iff the text is "BUY" in some letter case, and SELL for every other text |
| Converters.DecodeOrderType | src/main/java/com/orderManagement/converter/OrderTypeToStringConverter.java:21-26 | total decoder; `DecodeOrderTypeSpellings` states it yields BUY exactly for the case variants of "BUY" and SELL otherwise |
| Converters.OrderTypeEncodingInjective | src/main/java/com/orderManagement/converter/OrderTypeToStringConverter.java:12-18 | different constants get different column texts |
| Converters.EncodeExecutionType | src/main/java/com/orderManagement/converter/ExecutionTypeToStringConverter.java:13-19 | decoding the encoded name gives the constant back |
| Converters.DecodeExecutionTypeSpellings | src/main/java/com/orderManagement/converter/ExecutionTypeToStringConverter.java:22-27 | decoding yields OFFER iff the text is "OFFER" in some letter case, and ASK for every other text |
| Converters.DecodeExecutionType | src/main/java/com/orderManagement/converter/ExecutionTypeToStringConverter.java:22-27 | total decoder; `DecodeExecutionTypeSpellings` states it yields OFFER exactly for the case variants of "OFFER" and ASK otherwise |
| Converters.ExecutionTypeEncodingInjective | src/main/java/com/orderManagement/converter/ExecutionTypeToStringConverter.java:13-19 | different constants get different column texts |
| Buckets.AppendTo | src/main/java/com/orderManagement/service/ExecutionServiceImpl.java:82-86 | putIfAbsent then append: the key is added, its list gains the row at the end, and every other list is unchanged |
| Buckets.BucketLookup | src/main/java/com/orderManagement/service/ExecutionServiceImpl.java:137-143 | after bucketing, each book's list is its old list followed by that book's rows in input order |
| Buckets.BucketKeys | src/main/java/com/orderManagement/service/ExecutionServiceImpl.java:137-143 | bucketing adds exactly the books of the rows as keys |
| BookRegistry.BookService.constructor | src/main/java/com/orderManagement/service/BookServiceImpl.java:29-32 | starts with an empty cache over the given table, not running |
| BookRegistry.BookService.IsBookAvailable | src/main/java/com/orderManagement/service/BookServiceImpl.java:60-66 | true iff the cache has the name; `IsBookClosed` succeeds exactly when it holds, and `Start`/`Stop` state how it changes |
| BookRegistry.BookService.IsBookClosed | src/main/java/com/orderManagement/service/BookServiceImpl.java:53-66 | succeeds iff the cache knows the book, with the cached flag; otherwise fails with BookDoesNotExists |
| BookRegistry.BookService.FindByName | src/main/java/com/orderManagement/service/BookServiceImpl.java:36-42 | present iff the table, not the cache, has the name, with the stored flag |
| BookRegistry.BookService.SaveRow | src/main/java/com/orderManagement/service/BookServiceImpl.java:74 | the table row for the name is overwritten and the save is logged |
| BookRegistry.BookService.AddBookIfDoesNotExists | src/main/java/com/orderManagement/service/BookServiceImpl.java:68-77 | an unknown name becomes an open book in table and cache with exactly one save; a known name changes and saves nothing |
| BookRegistry.BookService.Save | src/main/java/com/orderManagement/service/BookServiceImpl.java:44-51 | fails with BookAlreadyExists iff the cache knows the name, changing nothing; otherwise creates the open book with one save |
| BookRegistry.BookService.CloseBook | src/main/java/com/orderManagement/service/BookServiceImpl.java:78-89 | fails with BookDoesNotExists iff the name is unknown, changing nothing; otherwise only that book becomes closed, in table and cache, with one save |
| BookRegistry.BookService.OpenBook | src/main/java/com/orderManagement/service/BookServiceImpl.java:91-98 | only that book becomes open in table and cache, with one save |
| BookRegistry.BookService.Start | src/main/java/com/orderManagement/service/BookServiceImpl.java:100-105 | every stored book is copied into the cache, overriding a cached flag; the table is untouched |
| BookRegistry.BookService.Stop | src/main/java/com/orderManagement/service/BookServiceImpl.java:107-111 | the cache is cleared, so no book is available afterwards |
| Matching.EligibleOrders | src/main/java/com/orderManagement/service/ExecutionServiceImpl.java:89-94 | the four stream filters in list order; `EligibleMembers` states exactly what it keeps |
| Matching.EligibleMembers | src/main/java/com/orderManagement/service/ExecutionServiceImpl.java:89-94 | the filter keeps exactly the orders with something left, on the consumed side, on the instrument and at a compatible price |
| Matching.SortByEntryDate | src/main/java/com/orderManagement/service/ExecutionServiceImpl.java:95 | the result is a permutation of the input, sorted by entry date |
| Matching.SortIsStable | src/main/java/com/orderManagement/service/ExecutionServiceImpl.java:95 | orders with the same entry date keep their list order |
| Matching.Candidates | src/main/java/com/orderManagement/service/ExecutionServiceImpl.java:89-96 | the candidates are a permutation of the eligible orders of the list, sorted by entry date |
| Matching.CandidatesKeepTies | src/main/java/com/orderManagement/service/ExecutionServiceImpl.java:89-96 | among candidates with equal entry dates, the order is the list order |
| Matching.Fills | src/main/java/com/orderManagement/service/ExecutionServiceImpl.java:98-109 | the k-th write is the k-th candidate with only its remaining quantity changed, lowered into [0, old remaining); nothing is written for a non-positive quantity |
| Matching.FillsFromIsFills | src/main/java/com/orderManagement/service/ExecutionServiceImpl.java:99-109 | the loop's view of the pass from position i equals the pass over the suffix from i |
| Matching.ResumesDone | src/main/java/com/orderManagement/service/ExecutionServiceImpl.java:99-109 | when the loop stops, by exhaustion or by `break`, the rows written are the whole pass |
| Matching.FillsPriority | src/main/java/com/orderManagement/service/ExecutionServiceImpl.java:99-109 | every written order except the last was emptied, so a later order is touched only after all earlier ones reached 0 |
| Matching.FillsConserve | src/main/java/com/orderManagement/service/ExecutionServiceImpl.java:98-109 | the quantity taken from the written orders is min(execution quantity, total remaining of the candidates), or 0 for a non-positive quantity |
| Matching.MatchUpdates | src/main/java/com/orderManagement/service/ExecutionServiceImpl.java:89-109 | the rows the complete pass writes; `MatchTotal`, `MatchTouchesEligibleInTimeOrder`, `WrittenComeFromList` and `MatchWritesEachOrderOnce` state its properties |
| Matching.MatchTotal | src/main/java/com/orderManagement/service/ExecutionServiceImpl.java:98-109 | total filled = min(execution quantity, sum of the eligible remaining quantities); 0 for a non-positive quantity |
| Matching.MatchTouchesEligibleInTimeOrder | src/main/java/com/orderManagement/service/ExecutionServiceImpl.java:89-109 | each write is an eligible order of the list, with remaining lowered by a fill in (0, old remaining]; writes come in entry-date order, and all but the last are emptied |
| Matching.WrittenComeFromList | src/main/java/com/orderManagement/service/ExecutionServiceImpl.java:89-109 | every written row carries the id of an eligible order of the list |
| Matching.MatchWritesEachOrderOnce | src/main/java/com/orderManagement/service/ExecutionServiceImpl.java:99-105 | against a list with distinct ids, no order is written twice |
| ExecutionLog.ExecutionService.constructor | src/main/java/com/orderManagement/service/ExecutionServiceImpl.java:42-47 | wires the two services over the given table with an empty history |
| ExecutionLog.ExecutionService.GetTriggeredExecutionsForBook | src/main/java/com/orderManagement/service/ExecutionServiceImpl.java:74-77 | the book's history, empty for a book without one; every entry is on that book |
| ExecutionLog.ExecutionService.SaveExecutionInDb | src/main/java/com/orderManagement/service/ExecutionServiceImpl.java:80-87 | the execution is stored under the next id and appended to the end of its book's history |
| ExecutionLog.ExecutionService.SaveFill | src/main/java/com/orderManagement/service/ExecutionServiceImpl.java:104 | one saved fill extends the tracked writes by that row in table, cache and save log |
| ExecutionLog.ExecutionService.FillNext | src/main/java/com/orderManagement/service/ExecutionServiceImpl.java:100-105 | one loop turn takes min(remaining, left) from candidate i, saves it, returns the new amount left, and keeps the loop invariant |
| ExecutionLog.ExecutionService.FillCandidates | src/main/java/com/orderManagement/service/ExecutionServiceImpl.java:98-109 | the loop writes exactly `Fills(candidates, quantity)` in order, to the table, the cache and the save log |
| ExecutionLog.ExecutionService.HandleExecutions | src/main/java/com/orderManagement/service/ExecutionServiceImpl.java:89-110 | the offer/ask handlers change the table, the cache and the save log exactly by `MatchUpdates(orderList, x)` |
| ExecutionLog.ExecutionService.TriggerExecution | src/main/java/com/orderManagement/service/ExecutionServiceImpl.java:51-72 | BookDoesNotExists iff the book is unknown and BookOpen iff it is open, changing nothing; otherwise the execution is stored and appended to its book's history, then the book's active orders are matched; each order is saved at most once |
| ExecutionLog.ExecutionService.Start | src/main/java/com/orderManagement/service/ExecutionServiceImpl.java:135-145 | every stored execution, in table order, is appended to its book's history |
| ExecutionLog.ExecutionService.Stop | src/main/java/com/orderManagement/service/ExecutionServiceImpl.java:147-152 | the history is cleared, so every book's history reads as empty |
| ExecutionLog.MatchLeavesStoreAlone | src/main/java/com/orderManagement/service/ExecutionServiceImpl.java:89-110 | a stored row whose id no eligible order carries is unchanged, each written row is stored as written, and no key appears |
| ExecutionLog.MatchLeavesCacheAlone | src/main/java/com/orderManagement/service/ExecutionServiceImpl.java:89-110 | a cached entry whose id no eligible order carries is unchanged, and an entry with a written id reads as the written row |
| OrderRegistry.WithoutOrder | src/main/java/com/orderManagement/service/OrderServiceImpl.java:145-148 | the list keeps exactly its entries whose id differs from the removed one |
| OrderRegistry.WithoutOrderDistinct | src/main/java/com/orderManagement/service/OrderServiceImpl.java:145-148 | removing entries keeps the other ids distinct |
| OrderRegistry.ReplaceById | src/main/java/com/orderManagement/service/ExecutionServiceImpl.java:103-104 | a fill seen through the cached list: entries with the filled id read as the fill, all others are untouched, and length and ids are kept |
| OrderRegistry.ReplaceInCache | src/main/java/com/orderManagement/service/ExecutionServiceImpl.java:103-104 | only the filled order's book list changes; the books are the same |
| OrderRegistry.CacheAll | src/main/java/com/orderManagement/service/ExecutionServiceImpl.java:99-109 | a run of fills keeps the cache's books, list lengths and the id at every position |
| OrderRegistry.StoreAllDistinct | src/main/java/com/orderManagement/service/OrderServiceImpl.java:123-125 | saving rows with distinct ids stores each under its id, leaves every other row as it was, and adds only their ids as keys |
| OrderRegistry.CacheAllUntouched | src/main/java/com/orderManagement/service/ExecutionServiceImpl.java:99-109 | a cached entry that no fill of its book carries the id of is unchanged |
| OrderRegistry.CacheAllWritten | src/main/java/com/orderManagement/service/ExecutionServiceImpl.java:99-109 | with distinct fill ids, a cached entry carrying a filled id reads as that fill |
| OrderRegistry.CompletedPendingMembers | src/main/java/com/orderManagement/service/OrderServiceImpl.java:128-141 | completed holds exactly the rows with remaining 0, and pending exactly the others |
| OrderRegistry.CompletedPendingPartition | src/main/java/com/orderManagement/service/OrderServiceImpl.java:128-141 | completed and pending are disjoint, and together they are a permutation of the list, so their lengths add up |
| OrderRegistry.ActiveRows | src/main/java/com/orderManagement/service/OrderServiceImpl.java:158-162 | only active rows are loaded |
| OrderRegistry.ActiveRowsComplete | src/main/java/com/orderManagement/service/OrderServiceImpl.java:158-162 | every active stored row below the next id is loaded |
| OrderRegistry.RefiledList | src/main/java/com/orderManagement/service/OrderServiceImpl.java:143-154 | the list rewrite keeps every entry in its own book and stored, and keeps ids distinct when the added row is new |
| OrderRegistry.OrderService.constructor | src/main/java/com/orderManagement/service/OrderServiceImpl.java:35-39 | starts with an empty cache over the given table, not running |
| OrderRegistry.OrderService.GetActiveOrdersForBook | src/main/java/com/orderManagement/service/OrderServiceImpl.java:115-121 | the book's cached list, empty for an unseen book; every entry is on that book and stored |
| OrderRegistry.OrderService.GetCompletedOrdersForBook | src/main/java/com/orderManagement/service/OrderServiceImpl.java:127-133 | exactly the book's cached orders with remaining 0 |
| OrderRegistry.OrderService.GetPendingOrdersForBook | src/main/java/com/orderManagement/service/OrderServiceImpl.java:135-141 | exactly the book's cached orders with remaining different from 0 |
| OrderRegistry.OrderService.SaveNew | src/main/java/com/orderManagement/service/OrderServiceImpl.java:59 | a row without id is stored under the next id, which then advances; the save is logged |
| OrderRegistry.OrderService.SaveExisting | src/main/java/com/orderManagement/service/OrderServiceImpl.java:86 | a stored row is overwritten and the save is logged |
| OrderRegistry.OrderService.CacheRow | src/main/java/com/orderManagement/service/OrderServiceImpl.java:60-64 | the row goes to the end of its book's list, creating the list when absent |
| OrderRegistry.OrderService.UpdateInMemoryMap | src/main/java/com/orderManagement/service/OrderServiceImpl.java:143-154 | a book with a list loses its entries with the removed id and gains the added row at the end; a book without a list is left alone |
| OrderRegistry.OrderService.AddOrder | src/main/java/com/orderManagement/service/OrderServiceImpl.java:41-66 | creates the book open when unknown; BookClosed iff it is closed; a non-null, non-zero id fails with OrderAlreadyExists or OrderNotAvailable; a failure saves no order; success stores a new active, unfilled row under a fresh id, appends it to the book's list and returns it |
| OrderRegistry.OrderService.Supersede | src/main/java/com/orderManagement/service/OrderServiceImpl.java:82-87 | saves the new row (fresh id, previous id = old id), then the old row inactive, then swaps the list entry |
| OrderRegistry.OrderService.EditOrder | src/main/java/com/orderManagement/service/OrderServiceImpl.java:67-93 | BookDoesNotExists, BookClosed, OrderNotAvailable and InactiveOrder, each iff its check is the first to fail, and then nothing is saved; success supersedes the order as above and returns the new row |
| OrderRegistry.OrderService.DeleteOrder | src/main/java/com/orderManagement/service/OrderServiceImpl.java:94-113 | OrderNotAvailable, BookDoesNotExists and BookClosed, in that order, changing nothing; success saves the row inactive and drops its id from the book's list, even for an inactive row |
| OrderRegistry.OrderService.UpdateOrder | src/main/java/com/orderManagement/service/OrderServiceImpl.java:122-125 | the row is saved over its stored row, and its book's cached entries with its id read as the row |
| OrderRegistry.OrderService.LoadRow | src/main/java/com/orderManagement/service/OrderServiceImpl.java:164-170 | one more stored row, if active, goes to the end of its book's list |
| OrderRegistry.OrderService.Start | src/main/java/com/orderManagement/service/OrderServiceImpl.java:156-172 | the active rows, in id order, are appended to their books' lists; from an empty cache no list holds an id twice |
| OrderRegistry.OrderService.Stop | src/main/java/com/orderManagement/service/OrderServiceImpl.java:174-178 | the cache is cleared, so every book's list reads as empty |
| Reports.ReportService.constructor | src/main/java/com/orderManagement/service/ReportService.java:24-28 | wires the three services |
| Reports.ReportService.GenerateReportForBook | src/main/java/com/orderManagement/service/ReportService.java:35-44 | BookDoesNotExists iff the book is unknown; otherwise: the given name; "Closed" iff closed, else "Open"; the registries' completed, pending and history lists; completed and pending disjoint and together a permutation of the active orders |
| Scenarios.MockActiveOrders | src/test/java/com/orderManagement/utils/TestUtils.java:12-41 | the six fixture orders carry ids 1 to 6 and sit in book "book" |
| Scenarios.OfferEligible | src/test/java/com/orderManagement/service/ExecutionServiceImplTest.java:77-99 | for an OFFER of 70 at 39 on instrument 42, orders 1 and 4 are the only eligible ones |
| Scenarios.OfferFillsOrdersOneAndFour | src/test/java/com/orderManagement/service/ExecutionServiceImplTest.java:77-99 | that OFFER writes order 1 with remaining 0, then order 4 with remaining 20, and nothing else |
| Scenarios.AskFillsOrderThree | src/test/java/com/orderManagement/service/ExecutionServiceImplTest.java:101-121 | an ASK of 30 at 39 on instrument 42 writes only order 3, with remaining 20 |
| Scenarios.FixtureCompleted | src/test/java/com/orderManagement/service/OrderServiceImplTest.java:228-231 | the completed orders of the fixture are orders 5 and 6 |
| Scenarios.FixturePending | src/test/java/com/orderManagement/service/OrderServiceImplTest.java:234-237 | the pending orders of the fixture are orders 1 to 4 |
| Scenarios.FixtureLoadsInIdOrder | src/main/java/com/orderManagement/service/OrderServiceImpl.java:158-162 | loading the fixture stored under ids 1 to 6 reads the six rows back in id order |
| Scenarios.StartLoadsTheFixture | src/test/java/com/orderManagement/service/OrderServiceImplTest.java:223-226 | loading the fixture creates only book "book", whose list is the six orders in order |

## Left out

- Concurrency is left out: the `synchronized` block on a per-execution lock, the `locks` map, and the atomicity of `ConcurrentHashMap`. Every operation is sequential and atomic. The lock key `execution.getKey()` is not defined on `Execution`.
- `@Transactional` rollback is left out. Every modelled failure keeps the writes made before it.
- `OrderRegistry.OrderService.AddOrder`: a failure on the id check keeps the newly created book. Whether Spring rolls that write back depends on the exception class, which is not modelled.
- `OrderRegistry.OrderService.Start`: assumes `findAll()` on the ORDERS table returns rows in ascending id. JPA promises no order. This order decides the cache order of orders with equal entry dates, and hence their fill order (`Matching.CandidatesKeepTies`).
- The Spring `SmartLifecycle` wiring and `isRunning()` are left out. `isRunning` is a plain field.
- The HTTP controllers are not part of this model. That includes the rule that a book may only be reopened when it has no pending orders.
- The repositories (JPA interfaces) are maps and sequences held as fields, with `save` assigning the next id. The database itself is not modelled.
- Floating-point prices are integers. The source only compares them.
- `LocalDateTime` entry dates are integer timestamps.
- `BeanUtils.copyProperties` is field-by-field construction.
- `ExecutionEntity.toEntity` and `BookEntity` are plain copies; the model constructs them directly from the fields.
- Exception messages are left out. Only the exception class is kept, as an `Error` constructor.
- Java `int`/`long` overflow is left out. Quantities and ids are unbounded integers.
- `OrderRegistry.OrderService.UpdateOrder`: requires the row's id to be stored. The only caller is the matching loop, and it saves cached orders, which are stored. Saving a row without an id, as one unit test does with an empty entity, is not modelled.
- `OrderRegistry.OrderService.EditOrder`: requires the order to carry an id. `findById(null)` throws in the source, which is not modelled.
- `OrderRegistry.OrderService.DeleteOrder`: takes a non-null id. `deleteOrder(null)` reaches `findById(null)`, which throws in the source; that path is not modelled.
- `BookRegistry.BookService.OpenBook`: requires the book to be known. The source dereferences the missing cache entry without checking.
- `OrderRegistry.StoreAll`: a row without an id writes nothing. No caller passes one.
- `OrderRegistry.OrderService.UpdateOrder`: aliasing is modelled by id, not by object identity. A fill updates every entry with the filled row's id in the list of that row's book, and no entry in any other book's list.
- `ExecutionLog.ExecutionService.GetTriggeredExecutionsForBook`: returns a value, not the live list the source hands out. Nothing in the model can observe the difference.
