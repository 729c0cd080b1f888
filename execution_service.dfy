/** ExecutionServiceImpl: the EXECUTIONS table, the per-book history of executions, and the
    greedy time-priority fill of an execution against a closed book's active orders. */
module ExecutionLog {
  import opened Wrappers
  import opened Model
  import opened Entities
  import opened Buckets
  import opened Matching
  import opened BookRegistry
  import opened OrderRegistry

  /** The table numbers its rows 1, 2, ... in the order they were saved. */
  ghost predicate Numbered(store: seq<ExecutionEntity>) {
    forall i :: 0 <= i < |store| ==> store[i].executionId == i + 1
  }

  /** Every execution in the history sits under its own book. */
  ghost predicate HistoryFiled(history: map<string, seq<ExecutionEntity>>) {
    forall b, e :: b in history && e in history[b] ==> ExecutionBook(e) == b
  }

  class ExecutionService {
    const bookService: BookService
    const orderService: OrderService
    /** The EXECUTIONS table, in the order the rows were saved. */
    var executionRepository: seq<ExecutionEntity>
    /** The per-book history of triggered executions. */
    var executionsMap: map<string, seq<ExecutionEntity>>
    var isRunning: bool

    ghost predicate Valid()
      reads this, orderService
    {
      && orderService.Valid()
      && orderService.bookService == bookService
      && Numbered(executionRepository)
      && HistoryFiled(executionsMap)
    }

    constructor (books: BookService, orders: OrderService, stored: seq<ExecutionEntity>)
      requires orders.Valid() && orders.bookService == books
      requires Numbered(stored)
      ensures Valid()
      ensures bookService == books && orderService == orders
      ensures executionRepository == stored && executionsMap == map[] && !isRunning
    {
      bookService := books;
      orderService := orders;
      executionRepository := stored;
      executionsMap := map[];
      isRunning := false;
    }

    /** `getOrDefault(bookName, new ArrayList<>())`: the book's history, empty when the book
        has none; every entry is an execution on that book. */
    function GetTriggeredExecutionsForBook(bookName: string): (r: seq<ExecutionEntity>)
      reads this
      ensures bookName !in executionsMap ==> r == []
      ensures bookName in executionsMap ==> r == executionsMap[bookName]
      ensures HistoryFiled(executionsMap) ==> forall e :: e in r ==> ExecutionBook(e) == bookName
    {
      Lookup(executionsMap, bookName)
    }

    /** Saves the execution (the table numbers it next) and appends the saved row to the end
        of its book's history. */
    method SaveExecutionInDb(x: Execution) returns (e: ExecutionEntity)
      requires Numbered(executionRepository) && HistoryFiled(executionsMap)
      modifies this
      ensures e == ExecutionEntity(|old(executionRepository)| + 1, x)
      ensures executionRepository == old(executionRepository) + [e]
      ensures executionsMap == AppendTo(old(executionsMap), x.bookName, e)
      ensures Numbered(executionRepository) && HistoryFiled(executionsMap)
      ensures isRunning == old(isRunning)
    {
      e := ExecutionEntity(|executionRepository| + 1, x);
      executionRepository := executionRepository + [e];
      executionsMap := AppendTo(executionsMap, ExecutionBook(e), e);
    }

    /** The order registry's state is the start state `store0`, `cache0`, `saves0` after the
        fills `updates` were saved in order. */
    ghost predicate Tracks(store0: map<int, OrderEntity>, cache0: map<string, seq<OrderEntity>>,
                           saves0: seq<OrderEntity>, updates: seq<OrderEntity>)
      reads orderService
    {
      && orderService.ordersRepository.Keys == store0.Keys
      && orderService.ordersRepository == StoreAll(store0, updates)
      && orderService.bookOrdersMap == CacheAll(cache0, updates)
      && orderService.saves == saves0 + updates
    }

    /** Saves one filled order through the order registry (`orderService.updateOrder`). */
    method SaveFill(filled: OrderEntity, ghost store0: map<int, OrderEntity>, ghost cache0: map<string, seq<OrderEntity>>,
                    ghost saves0: seq<OrderEntity>, ghost updates: seq<OrderEntity>)
      requires orderService.Valid()
      requires filled.orderId.Some? && filled.orderId.value in store0
      requires Tracks(store0, cache0, saves0, updates)
      modifies orderService
      ensures orderService.Valid()
      ensures Tracks(store0, cache0, saves0, updates + [filled])
      ensures orderService.nextId == old(orderService.nextId) && orderService.isRunning == old(orderService.isRunning)
      ensures old(orderService.CacheDistinct()) ==> orderService.CacheDistinct()
    {
      orderService.UpdateOrder(filled);
      AppendAssoc(saves0, updates, [filled]);
      assert (updates + [filled])[..|updates|] == updates;
    }

    /** One turn of the fill loop: the candidate at position `i` gives
        `min(its remaining quantity, left)`, is saved, and what is still to fill is returned. */
    method FillNext(candidates: seq<OrderEntity>, i: nat, left: int, ghost total: int,
                    ghost store0: map<int, OrderEntity>, ghost cache0: map<string, seq<OrderEntity>>,
                    ghost saves0: seq<OrderEntity>, ghost updates: seq<OrderEntity>)
      returns (rest: int, ghost filled: OrderEntity)
      requires orderService.Valid()
      requires i < |candidates| && left > 0 && Resumes(updates, candidates, i, left, total)
      requires candidates[i].orderId.Some? && candidates[i].orderId.value in store0
      requires Tracks(store0, cache0, saves0, updates)
      modifies orderService
      ensures rest == left - Min(candidates[i].remainingQuantity, left)
      ensures Resumes(updates + [filled], candidates, i + 1, rest, total)
      ensures orderService.Valid()
      ensures Tracks(store0, cache0, saves0, updates + [filled])
      ensures orderService.nextId == old(orderService.nextId) && orderService.isRunning == old(orderService.isRunning)
      ensures old(orderService.CacheDistinct()) ==> orderService.CacheDistinct()
    {
      var order := candidates[i];
      var orderQuantity := order.remainingQuantity;
      var executionQuantity := Min(orderQuantity, left);
      var fill := order.(remainingQuantity := orderQuantity - executionQuantity);
      ResumesStep(updates, candidates, i, left, total, executionQuantity, fill);
      SaveFill(fill, store0, cache0, saves0, updates);
      rest := left - executionQuantity;
      filled := fill;
    }

    /** The fill loop of `handleOfferExecutions` / `handleAskExecutions`: the eligible orders in
        entry-date order each give `min(their remaining quantity, what is left)` until nothing is
        left, and each filled order is saved through the order registry. The writes are exactly
        `MatchUpdates(orderList, x)`, in that order. */
    method HandleExecutions(orderList: seq<OrderEntity>, x: Execution)
      requires orderService.Valid()
      requires forall o :: o in orderList ==> o.orderId.Some? && o.orderId.value in orderService.ordersRepository
      modifies orderService
      ensures orderService.Valid()
      ensures orderService.ordersRepository == StoreAll(old(orderService.ordersRepository), MatchUpdates(orderList, x))
      ensures orderService.bookOrdersMap == CacheAll(old(orderService.bookOrdersMap), MatchUpdates(orderList, x))
      ensures orderService.saves == old(orderService.saves) + MatchUpdates(orderList, x)
      ensures orderService.nextId == old(orderService.nextId) && orderService.isRunning == old(orderService.isRunning)
      ensures old(orderService.CacheDistinct()) ==> orderService.CacheDistinct()
    {
      var candidates := Candidates(orderList, x);
      FillCandidates(candidates, x.quantity);
    }

    /** The greedy pass over the sorted candidates: each one in turn is filled by
        `min(its remaining quantity, what is left)` and saved, until nothing is left. */
    method FillCandidates(candidates: seq<OrderEntity>, quantity: int)
      requires orderService.Valid()
      requires forall o :: o in candidates ==> o.orderId.Some? && o.orderId.value in orderService.ordersRepository
      modifies orderService
      ensures orderService.Valid()
      ensures orderService.ordersRepository == StoreAll(old(orderService.ordersRepository), Fills(candidates, quantity))
      ensures orderService.bookOrdersMap == CacheAll(old(orderService.bookOrdersMap), Fills(candidates, quantity))
      ensures orderService.saves == old(orderService.saves) + Fills(candidates, quantity)
      ensures orderService.nextId == old(orderService.nextId) && orderService.isRunning == old(orderService.isRunning)
      ensures old(orderService.CacheDistinct()) ==> orderService.CacheDistinct()
    {
      ghost var store0 := orderService.ordersRepository;
      ghost var cache0 := orderService.bookOrdersMap;
      ghost var saves0 := orderService.saves;
      var remainingQuantity := quantity;
      var i := 0;
      ghost var updates: seq<OrderEntity> := [];
      assert saves0 + [] == saves0;
      assert Resumes([], candidates, 0, quantity, quantity) by {
        assert [] + FillsFrom(candidates, 0, quantity) == FillsFrom(candidates, 0, quantity);
      }
      while i < |candidates|
        invariant 0 <= i <= |candidates|
        invariant Resumes(updates, candidates, i, remainingQuantity, quantity)
        invariant orderService.Valid()
        invariant Tracks(store0, cache0, saves0, updates)
        invariant orderService.nextId == old(orderService.nextId) && orderService.isRunning == old(orderService.isRunning)
        invariant old(orderService.CacheDistinct()) ==> orderService.CacheDistinct()
      {
        if remainingQuantity > 0 {
          ghost var filled;
          remainingQuantity, filled := FillNext(candidates, i, remainingQuantity, quantity, store0, cache0, saves0, updates);
          updates := updates + [filled];
          i := i + 1;
        } else {
          break;
        }
      }
      ResumesDone(updates, candidates, i, remainingQuantity, quantity);
    }

    /** Runs an execution. An unknown book (BookDoesNotExists) or an open one (BookOpen) is
        refused and nothing changes. On a closed book the execution is first saved and appended
        to the book's history, then filled against the book's active orders: the order store,
        the cache and the saved rows change exactly by `MatchUpdates` of that list. */
    method TriggerExecution(x: Execution) returns (r: Outcome<Error>)
      requires Valid()
      modifies this, orderService
      ensures Valid()
      ensures r == Fail(BookDoesNotExists) <==> x.bookName !in bookService.booksMap
      ensures r == Fail(BookOpen) <==> x.bookName in bookService.booksMap && !bookService.booksMap[x.bookName]
      ensures r.Fail? ==> r.error in {BookDoesNotExists, BookOpen}
      ensures r.Fail? ==>
                && executionRepository == old(executionRepository) && executionsMap == old(executionsMap)
                && orderService.ordersRepository == old(orderService.ordersRepository)
                && orderService.bookOrdersMap == old(orderService.bookOrdersMap)
                && orderService.saves == old(orderService.saves)
      ensures r.Pass? ==>
                var e := ExecutionEntity(|old(executionRepository)| + 1, x);
                var updates := MatchUpdates(old(orderService.GetActiveOrdersForBook(x.bookName)), x);
                && executionRepository == old(executionRepository) + [e]
                && executionsMap == AppendTo(old(executionsMap), x.bookName, e)
                && orderService.ordersRepository == StoreAll(old(orderService.ordersRepository), updates)
                && orderService.bookOrdersMap == CacheAll(old(orderService.bookOrdersMap), updates)
                && orderService.saves == old(orderService.saves) + updates
      ensures old(orderService.CacheDistinct()) ==>
                && orderService.CacheDistinct()
                && DistinctIds(orderService.saves[|old(orderService.saves)|..])
      ensures orderService.nextId == old(orderService.nextId)
      ensures isRunning == old(isRunning) && orderService.isRunning == old(orderService.isRunning)
    {
      if !bookService.IsBookAvailable(x.bookName) {
        return Fail(BookDoesNotExists);
      }
      var closed := bookService.IsBookClosed(x.bookName);
      if !closed.value {
        return Fail(BookOpen);
      }
      var saved := SaveExecutionInDb(x);
      var orderList := orderService.GetActiveOrdersForBook(x.bookName);
      ghost var before := orderService.saves;
      if orderService.CacheDistinct() {
        MatchWritesEachOrderOnce(orderList, x);
      }
      HandleExecutions(orderList, x);
      assert orderService.saves[|before|..] == MatchUpdates(orderList, x);
      r := Pass;
    }

    /** Loads every stored execution, in table order, into its book's history. */
    method Start()
      requires Numbered(executionRepository) && HistoryFiled(executionsMap)
      modifies this
      ensures executionsMap == Bucket(old(executionsMap), executionRepository, ExecutionBook)
      ensures HistoryFiled(executionsMap)
      ensures executionRepository == old(executionRepository)
      ensures isRunning
    {
      var i := 0;
      while i < |executionRepository|
        invariant 0 <= i <= |executionRepository|
        invariant executionRepository == old(executionRepository)
        invariant executionsMap == Bucket(old(executionsMap), executionRepository[..i], ExecutionBook)
        invariant HistoryFiled(executionsMap)
      {
        var e := executionRepository[i];
        assert executionRepository[..i + 1] == executionRepository[..i] + [e];
        BucketSnoc(old(executionsMap), executionRepository[..i], e, ExecutionBook);
        executionsMap := AppendTo(executionsMap, ExecutionBook(e), e);
        i := i + 1;
      }
      assert executionRepository[..i] == executionRepository;
      isRunning := true;
    }

    /** Clears the history: afterwards every book's history reads as empty. */
    method Stop()
      modifies this
      ensures executionsMap == map[]
      ensures forall b :: GetTriggeredExecutionsForBook(b) == []
      ensures executionRepository == old(executionRepository)
      ensures !isRunning
    {
      executionsMap := map[];
      isRunning := false;
    }
  }

  lemma AppendAssoc<T>(a: seq<T>, b: seq<T>, c: seq<T>)
    ensures (a + b) + c == a + (b + c)
  {
  }

  // ---- What an execution does to the orders -----------------------------------------

  /** Only eligible orders change. Against a list with distinct ids, every stored row whose id
      no eligible order of the list carries is left exactly as it was, every written row is
      stored as written, and no new row appears. */
  lemma MatchLeavesStoreAlone(store: map<int, OrderEntity>, list: seq<OrderEntity>, x: Execution)
    requires DistinctIds(list)
    requires forall o :: o in list ==> o.orderId.Some? && o.orderId.value in store
    ensures var after := StoreAll(store, MatchUpdates(list, x));
            && after.Keys == store.Keys
            && (forall id :: id in store && (forall o :: o in list && Eligible(o, x) ==> o.orderId != Some(id)) ==>
                  after[id] == store[id])
            && (forall k :: 0 <= k < |MatchUpdates(list, x)| ==>
                  after[MatchUpdates(list, x)[k].orderId.value] == MatchUpdates(list, x)[k])
  {
    var u := MatchUpdates(list, x);
    MatchWritesEachOrderOnce(list, x);
    WrittenComeFromList(list, x);
    StoreAllDistinct(store, u);
  }

  /** The same through the cache: an entry of any list whose id no eligible order of the
      matched list carries is untouched, and written entries read as the written rows. */
  lemma MatchLeavesCacheAlone(m: map<string, seq<OrderEntity>>, list: seq<OrderEntity>, x: Execution, b: string, j: int)
    requires DistinctIds(list)
    requires b in m && 0 <= j < |m[b]|
    ensures var after := CacheAll(m, MatchUpdates(list, x));
            (forall o :: o in list && Eligible(o, x) ==> o.orderId != m[b][j].orderId) ==> after[b][j] == m[b][j]
    ensures var u := MatchUpdates(list, x);
            forall k :: 0 <= k < |u| && u[k].bookName == b && u[k].orderId == m[b][j].orderId ==>
              CacheAll(m, u)[b][j] == u[k]
  {
    var c := Candidates(list, x);
    var u := MatchUpdates(list, x);
    MatchWritesEachOrderOnce(list, x);
    forall k | 0 <= k < |u| ensures u[k].orderId == c[k].orderId && c[k] in list && Eligible(c[k], x) {
      assert c[k] in c;
    }
    if forall o :: o in list && Eligible(o, x) ==> o.orderId != m[b][j].orderId {
      forall v | v in u && v.bookName == b ensures v.orderId != m[b][j].orderId {
        var k :| 0 <= k < |u| && u[k] == v;
      }
      CacheAllUntouched(m, u, b, j);
    }
    forall k | 0 <= k < |u| && u[k].bookName == b && u[k].orderId == m[b][j].orderId
      ensures CacheAll(m, u)[b][j] == u[k]
    {
      CacheAllWritten(m, u, k, j);
    }
  }
}
