/** OrderServiceImpl: the ORDERS table (rows keyed by a store-assigned id) and the per-book
    cache of active orders that the matching pass reads. */
module OrderRegistry {
  import opened Wrappers
  import opened Model
  import opened Entities
  import opened Buckets
  import opened BookRegistry

  // ---- The cache updates, as functions on values --------------------------------

  /** The filter of `updateInMemoryMap`: the list without the entries carrying `id`, in order. */
  function WithoutOrder(list: seq<OrderEntity>, id: Option<int>): (r: seq<OrderEntity>)
    ensures forall o :: o in r <==> o in list && o.orderId != id
    ensures |r| <= |list|
  {
    if list == [] then []
    else (if list[0].orderId == id then [] else [list[0]]) + WithoutOrder(list[1..], id)
  }

  /** Removing an identity keeps the other identities distinct. */
  lemma {:induction false} WithoutOrderDistinct(list: seq<OrderEntity>, id: Option<int>)
    requires DistinctIds(list)
    ensures DistinctIds(WithoutOrder(list, id))
  {
    if list != [] {
      DistinctTail(list);
      WithoutOrderDistinct(list[1..], id);
      if list[0].orderId != id {
        DistinctCons(list[0], WithoutOrder(list[1..], id));
      }
    }
  }

  /** Appending a row with a new identity keeps the identities distinct. */
  lemma DistinctAppend(s: seq<OrderEntity>, e: OrderEntity)
    requires DistinctIds(s)
    requires forall o :: o in s ==> o.orderId != e.orderId
    ensures DistinctIds(s + [e])
  {
    var r := s + [e];
    forall i, j | 0 <= i < j < |r| ensures r[i].orderId != r[j].orderId {
      assert r[i] == s[i];
      if j < |s| {
        assert r[j] == s[j];
      }
    }
  }

  /** What a fill does to a cached list: the fill is applied to the filled object itself, so
      every entry carrying the filled order's id now reads as the filled order, and every other
      entry is untouched. */
  function ReplaceById(list: seq<OrderEntity>, u: OrderEntity): (r: seq<OrderEntity>)
    ensures |r| == |list|
    ensures forall j :: 0 <= j < |r| ==> r[j].orderId == list[j].orderId
    ensures forall j :: 0 <= j < |r| && list[j].orderId != u.orderId ==> r[j] == list[j]
    ensures forall j :: 0 <= j < |r| && list[j].orderId == u.orderId ==> r[j] == u
  {
    seq(|list|, j requires 0 <= j < |list| => if list[j].orderId == u.orderId then u else list[j])
  }

  /** A fill seen through the cache: only the list of the filled order's book is affected. */
  function ReplaceInCache(m: map<string, seq<OrderEntity>>, u: OrderEntity): (r: map<string, seq<OrderEntity>>)
    ensures r.Keys == m.Keys
    ensures forall b :: b in m && b != u.bookName ==> r[b] == m[b]
    ensures u.bookName in m ==> r[u.bookName] == ReplaceById(m[u.bookName], u)
  {
    if u.bookName in m then m[u.bookName := ReplaceById(m[u.bookName], u)] else m
  }

  /** The cache after a sequence of fills, applied in order. Fills never change the shape of
      the cache: the same books, the same list lengths and the same identity at every position. */
  function CacheAll(m: map<string, seq<OrderEntity>>, us: seq<OrderEntity>): (r: map<string, seq<OrderEntity>>)
    ensures r.Keys == m.Keys
    ensures forall b :: b in m ==> |r[b]| == |m[b]|
    ensures forall b, j :: b in m && 0 <= j < |m[b]| ==> r[b][j].orderId == m[b][j].orderId
  {
    if us == [] then m else ReplaceInCache(CacheAll(m, us[..|us| - 1]), us[|us| - 1])
  }

  /** The store after a sequence of row saves, each overwriting the row with its id (a row
      without an id, which no caller passes, writes nothing). */
  function StoreAll(store: map<int, OrderEntity>, us: seq<OrderEntity>): map<int, OrderEntity> {
    if us == [] then store
    else
      var u := us[|us| - 1];
      var s := StoreAll(store, us[..|us| - 1]);
      if u.orderId.Some? then s[u.orderId.value := u] else s
  }

  /** Saving rows: the keys afterwards are the old keys and the saved rows' ids. */
  lemma {:induction false} StoreAllKeys(store: map<int, OrderEntity>, us: seq<OrderEntity>)
    requires forall u :: u in us ==> u.orderId.Some?
    ensures StoreAll(store, us).Keys == store.Keys + set u | u in us :: u.orderId.value
  {
    if us != [] {
      var init := us[..|us| - 1];
      assert us == init + [us[|us| - 1]];
      assert forall u :: u in init ==> u in us;
      StoreAllKeys(store, init);
    }
  }

  /** Saving rows leaves every stored row that no saved row carries the id of as it was. */
  lemma {:induction false} StoreAllUntouched(store: map<int, OrderEntity>, us: seq<OrderEntity>, id: int)
    requires id in store && forall u :: u in us ==> u.orderId != Some(id)
    ensures id in StoreAll(store, us) && StoreAll(store, us)[id] == store[id]
  {
    if us != [] {
      var init := us[..|us| - 1];
      assert us[|us| - 1] in us;
      assert forall u :: u in init ==> u in us;
      StoreAllUntouched(store, init, id);
    }
  }

  /** Saving rows with distinct identities: each saved row is stored under its id. */
  lemma {:induction false} StoreAllWritten(store: map<int, OrderEntity>, us: seq<OrderEntity>, k: int)
    requires forall u :: u in us ==> u.orderId.Some?
    requires DistinctIds(us) && 0 <= k < |us|
    ensures us[k].orderId.value in StoreAll(store, us) && StoreAll(store, us)[us[k].orderId.value] == us[k]
  {
    var init := us[..|us| - 1];
    var last := us[|us| - 1];
    assert last in us;
    if k < |us| - 1 {
      DistinctInit(us);
      assert init[k] == us[k] && init[k] in us;
      assert forall u :: u in init ==> u in us;
      StoreAllWritten(store, init, k);
    }
  }

  /** Saving rows with distinct identities: each saved row is stored under its id, every other
      row is left as it was, and no other key appears. */
  lemma StoreAllDistinct(store: map<int, OrderEntity>, us: seq<OrderEntity>)
    requires forall u :: u in us ==> u.orderId.Some?
    requires DistinctIds(us)
    ensures StoreAll(store, us).Keys == store.Keys + set u | u in us :: u.orderId.value
    ensures forall k :: 0 <= k < |us| ==> StoreAll(store, us)[us[k].orderId.value] == us[k]
    ensures forall id :: id in store && (forall u :: u in us ==> u.orderId != Some(id)) ==>
              StoreAll(store, us)[id] == store[id]
  {
    StoreAllKeys(store, us);
    forall k | 0 <= k < |us| ensures StoreAll(store, us)[us[k].orderId.value] == us[k] {
      StoreAllWritten(store, us, k);
    }
    forall id | id in store && (forall u :: u in us ==> u.orderId != Some(id))
      ensures StoreAll(store, us)[id] == store[id]
    {
      StoreAllUntouched(store, us, id);
    }
  }

  /** A cached entry that no fill of its own book carries the identity of is untouched. */
  lemma {:induction false} CacheAllUntouched(m: map<string, seq<OrderEntity>>, us: seq<OrderEntity>, b: string, j: int)
    requires b in m && 0 <= j < |m[b]|
    requires forall u :: u in us && u.bookName == b ==> u.orderId != m[b][j].orderId
    ensures b in CacheAll(m, us) && 0 <= j < |CacheAll(m, us)[b]|
    ensures CacheAll(m, us)[b][j] == m[b][j]
  {
    if us != [] {
      var init := us[..|us| - 1];
      assert forall u :: u in init ==> u in us;
      CacheAllUntouched(m, init, b, j);
    }
  }

  /** With distinct identities among the fills, a cached entry that a fill of its book carries
      the identity of ends up as exactly that fill. */
  lemma {:induction false} CacheAllWritten(m: map<string, seq<OrderEntity>>, us: seq<OrderEntity>, k: int, j: int)
    requires DistinctIds(us)
    requires 0 <= k < |us| && us[k].bookName in m
    requires 0 <= j < |m[us[k].bookName]| && m[us[k].bookName][j].orderId == us[k].orderId
    ensures CacheAll(m, us)[us[k].bookName][j] == us[k]
  {
    var b := us[k].bookName;
    var init := us[..|us| - 1];
    var last := us[|us| - 1];
    if k == |us| - 1 {
      assert CacheAll(m, us) == ReplaceInCache(CacheAll(m, init), last);
    } else {
      assert forall i, i' :: 0 <= i < i' < |init| ==> init[i] == us[i] && init[i'] == us[i'];
      assert init[k] == us[k];
      CacheAllWritten(m, init, k, j);
      assert last.orderId != us[k].orderId;
    }
  }

  /** The rows that are complete (nothing left to fill), in list order. */
  function CompletedOrders(list: seq<OrderEntity>): seq<OrderEntity> {
    if list == [] then []
    else (if IsOrderComplete(list[0]) then [list[0]] else []) + CompletedOrders(list[1..])
  }

  /** The rows that still have something to fill, in list order. */
  function PendingOrders(list: seq<OrderEntity>): seq<OrderEntity> {
    if list == [] then []
    else (if IsOrderComplete(list[0]) then [] else [list[0]]) + PendingOrders(list[1..])
  }

  /** A row is completed or pending exactly when it is in the list and has nothing,
      respectively something, left to fill. */
  lemma {:induction false} CompletedPendingMembers(list: seq<OrderEntity>)
    ensures forall o :: o in CompletedOrders(list) <==> o in list && IsOrderComplete(o)
    ensures forall o :: o in PendingOrders(list) <==> o in list && !IsOrderComplete(o)
  {
    if list != [] {
      var h := list[0];
      CompletedPendingMembers(list[1..]);
      assert list == [h] + list[1..];
      var c := (if IsOrderComplete(h) then [h] else []) + CompletedOrders(list[1..]);
      var p := (if IsOrderComplete(h) then [] else [h]) + PendingOrders(list[1..]);
      assert CompletedOrders(list) == c && PendingOrders(list) == p;
      forall o ensures (o in c <==> o in list && IsOrderComplete(o)) && (o in p <==> o in list && !IsOrderComplete(o)) {
        assert o in list <==> o == h || o in list[1..];
      }
    }
  }

  /** Completed and pending split a list: each row lands in exactly one of the two, and
      together they hold every row as often as the list does. */
  lemma CompletedPendingPartition(list: seq<OrderEntity>)
    ensures multiset(CompletedOrders(list)) + multiset(PendingOrders(list)) == multiset(list)
    ensures multiset(CompletedOrders(list)) !! multiset(PendingOrders(list))
    ensures |CompletedOrders(list)| + |PendingOrders(list)| == |list|
  {
    CompletedPendingCount(list);
    CompletedPendingMembers(list);
    var c, p := CompletedOrders(list), PendingOrders(list);
    forall o | o in multiset(c) ensures o !in multiset(p) {
      assert o in c;
    }
  }

  /** Together, completed and pending hold every row of the list as often as the list does. */
  lemma {:induction false} CompletedPendingCount(list: seq<OrderEntity>)
    ensures multiset(CompletedOrders(list)) + multiset(PendingOrders(list)) == multiset(list)
  {
    if list != [] {
      var h, t := list[0], list[1..];
      CompletedPendingCount(t);
      assert list == [h] + t;
      if IsOrderComplete(h) {
        assert CompletedOrders(list) == [h] + CompletedOrders(t);
        assert PendingOrders(list) == PendingOrders(t);
      } else {
        assert CompletedOrders(list) == CompletedOrders(t);
        assert PendingOrders(list) == [h] + PendingOrders(t);
      }
    }
  }

  /** `findAll()` filtered to the active rows: the rows with ids 1 .. n - 1, ascending. */
  function ActiveRows(store: map<int, OrderEntity>, n: int): (r: seq<OrderEntity>)
    ensures forall o :: o in r ==> o.isActive
    decreases n
  {
    if n <= 1 then []
    else ActiveRows(store, n - 1) + (if n - 1 in store && store[n - 1].isActive then [store[n - 1]] else [])
  }

  /** Every active row with an id below `n` is among the loaded rows. */
  lemma {:induction false} ActiveRowsComplete(store: map<int, OrderEntity>, n: int, k: int)
    requires 1 <= k < n && k in store && store[k].isActive
    ensures store[k] in ActiveRows(store, n)
    decreases n
  {
    if k < n - 1 {
      ActiveRowsComplete(store, n - 1, k);
    }
  }

  // ---- State invariants, as predicates on values ---------------------------------

  /** Every stored row carries the id it is stored under, and ids run from 1 below `next`. */
  ghost predicate StoreKeyed(store: map<int, OrderEntity>, next: int) {
    forall k :: k in store ==> 1 <= k < next && store[k].orderId == Some(k)
  }

  /** A stored row carries the id it is stored under. */
  lemma StoredRowId(store: map<int, OrderEntity>, next: int, k: int)
    requires StoreKeyed(store, next) && k in store
    ensures store[k].orderId == Some(k) && k < next
  {
  }

  /** Every cached entry sits in its own book's list and refers to a stored row. */
  ghost predicate CacheFiled(cache: map<string, seq<OrderEntity>>, store: map<int, OrderEntity>) {
    forall b, o :: b in cache && o in cache[b] ==> o.bookName == b && o.orderId.Some? && o.orderId.value in store
  }

  /** No list of the cache holds the same order twice. */
  ghost predicate ListsDistinct(cache: map<string, seq<OrderEntity>>) {
    forall b :: b in cache ==> DistinctIds(cache[b])
  }

  /** Every cached entry carries an id below `n`. */
  ghost predicate IdsBelow(cache: map<string, seq<OrderEntity>>, n: int) {
    forall b, o :: b in cache && o in cache[b] ==> o.orderId.Some? && o.orderId.value < n
  }

  /** Storing a list of rows filed under `b` and stored keeps the cache filed. */
  lemma FiledReplace(cache: map<string, seq<OrderEntity>>, store: map<int, OrderEntity>, b: string,
                     list: seq<OrderEntity>)
    requires CacheFiled(cache, store)
    requires forall o :: o in list ==> o.bookName == b && o.orderId.Some? && o.orderId.value in store
    ensures CacheFiled(cache[b := list], store)
  {
  }

  /** Storing a list without repeated ids keeps the lists distinct. */
  lemma DistinctReplace(cache: map<string, seq<OrderEntity>>, b: string, list: seq<OrderEntity>)
    requires ListsDistinct(cache) && DistinctIds(list)
    ensures ListsDistinct(cache[b := list])
  {
  }

  /** Replacing a book's list by the list without `removeId` plus `add` keeps every entry in
      its own book and stored, and keeps the lists distinct when `add` is new to the cache. */
  lemma RefiledList(cache: map<string, seq<OrderEntity>>, store: map<int, OrderEntity>, b: string,
                    removeId: Option<int>, add: Option<OrderEntity>, updated: seq<OrderEntity>)
    requires b in cache && CacheFiled(cache, store)
    requires add.Some? ==> add.value.bookName == b && add.value.orderId.Some? && add.value.orderId.value in store
    requires updated == WithoutOrder(cache[b], removeId) + (if add.Some? then [add.value] else [])
    ensures CacheFiled(cache[b := updated], store)
    ensures ListsDistinct(cache) && (add.Some? ==> IdsBelow(cache, add.value.orderId.value)) ==>
              ListsDistinct(cache[b := updated])
  {
    var list := cache[b];
    var kept := WithoutOrder(list, removeId);
    assert forall o :: o in kept ==> o in list;
    assert forall o :: o in list ==> o.bookName == b && o.orderId.Some? && o.orderId.value in store;
    FiledReplace(cache, store, b, updated);
    if ListsDistinct(cache) && (add.Some? ==> IdsBelow(cache, add.value.orderId.value)) {
      WithoutOrderDistinct(list, removeId);
      if add.Some? {
        assert forall o :: o in kept ==> o.orderId.value < add.value.orderId.value;
        DistinctAppend(kept, add.value);
      } else {
        assert updated == kept + [];
      }
      DistinctReplace(cache, b, updated);
    }
  }

  // ---- The service ----------------------------------------------------------------

  class OrderService {
    const bookService: BookService
    /** The ORDERS table, keyed by the id it assigned. */
    var ordersRepository: map<int, OrderEntity>
    /** The id the table assigns to the next new row. */
    var nextId: int
    /** The per-book lists of active orders. */
    var bookOrdersMap: map<string, seq<OrderEntity>>
    /** The rows handed to `ordersRepository.save`, as stored, in call order. */
    ghost var saves: seq<OrderEntity>
    var isRunning: bool

    /** Every stored row carries the id it is stored under, below the next fresh id; every
        cached entry sits in its own book's list and refers to a stored row. */
    ghost predicate Valid()
      reads this
    {
      nextId >= 1 && StoreKeyed(ordersRepository, nextId) && CacheFiled(bookOrdersMap, ordersRepository)
    }

    /** No list of the cache holds the same order twice. */
    ghost predicate CacheDistinct()
      reads this
    {
      ListsDistinct(bookOrdersMap)
    }

    constructor (books: BookService, stored: map<int, OrderEntity>, next: int)
      requires next >= 1
      requires StoreKeyed(stored, next)
      ensures Valid() && CacheDistinct()
      ensures bookService == books && ordersRepository == stored && nextId == next
      ensures bookOrdersMap == map[] && saves == [] && !isRunning
    {
      bookService := books;
      ordersRepository := stored;
      nextId := next;
      bookOrdersMap := map[];
      saves := [];
      isRunning := false;
    }

    /** `getOrDefault(bookName, new ArrayList<>())`: the book's cached list, empty when the
        book has none; every entry belongs to that book and refers to a stored row. */
    function GetActiveOrdersForBook(bookName: string): (r: seq<OrderEntity>)
      reads this
      ensures bookName !in bookOrdersMap ==> r == []
      ensures bookName in bookOrdersMap ==> r == bookOrdersMap[bookName]
      ensures Valid() ==> forall o :: o in r ==>
                o.bookName == bookName && o.orderId.Some? && o.orderId.value in ordersRepository
    {
      Lookup(bookOrdersMap, bookName)
    }

    /** The book's cached orders with nothing left to fill. */
    function GetCompletedOrdersForBook(bookName: string): (r: seq<OrderEntity>)
      reads this
      ensures forall o :: o in r <==> o in GetActiveOrdersForBook(bookName) && o.remainingQuantity == 0
    {
      CompletedPendingMembers(GetActiveOrdersForBook(bookName));
      CompletedOrders(GetActiveOrdersForBook(bookName))
    }

    /** The book's cached orders with something left to fill. */
    function GetPendingOrdersForBook(bookName: string): (r: seq<OrderEntity>)
      reads this
      ensures forall o :: o in r <==> o in GetActiveOrdersForBook(bookName) && o.remainingQuantity != 0
    {
      CompletedPendingMembers(GetActiveOrdersForBook(bookName));
      PendingOrders(GetActiveOrdersForBook(bookName))
    }

    /** `ordersRepository.save` of a row without identity: the table assigns the next id. */
    method SaveNew(e: OrderEntity) returns (row: OrderEntity)
      requires Valid()
      requires e.orderId.None?
      modifies this
      ensures Valid()
      ensures row == e.(orderId := Some(old(nextId)))
      ensures ordersRepository == old(ordersRepository)[old(nextId) := row]
      ensures nextId == old(nextId) + 1
      ensures saves == old(saves) + [row]
      ensures bookOrdersMap == old(bookOrdersMap) && isRunning == old(isRunning)
    {
      row := e.(orderId := Some(nextId));
      ordersRepository := ordersRepository[nextId := row];
      nextId := nextId + 1;
      saves := saves + [row];
    }

    /** `ordersRepository.save` of a row that is already stored: it overwrites that row. */
    method SaveExisting(e: OrderEntity)
      requires Valid()
      requires e.orderId.Some? && e.orderId.value in ordersRepository
      modifies this
      ensures Valid()
      ensures ordersRepository == old(ordersRepository)[e.orderId.value := e]
      ensures saves == old(saves) + [e]
      ensures nextId == old(nextId) && bookOrdersMap == old(bookOrdersMap) && isRunning == old(isRunning)
    {
      ordersRepository := ordersRepository[e.orderId.value := e];
      saves := saves + [e];
    }

    /** Appends a stored row to the end of its book's list. A row whose id is above every
        cached id keeps the lists free of repeats. */
    method CacheRow(row: OrderEntity)
      requires Valid()
      requires row.orderId.Some? && row.orderId.value in ordersRepository
      modifies this
      ensures Valid()
      ensures bookOrdersMap == AppendTo(old(bookOrdersMap), row.bookName, row)
      ensures ordersRepository == old(ordersRepository) && nextId == old(nextId)
      ensures saves == old(saves) && isRunning == old(isRunning)
      ensures old(CacheDistinct()) && old(IdsBelow(bookOrdersMap, row.orderId.value)) ==>
                CacheDistinct() && IdsBelow(bookOrdersMap, row.orderId.value + 1)
    {
      if CacheDistinct() && IdsBelow(bookOrdersMap, row.orderId.value) {
        DistinctAppend(Lookup(bookOrdersMap, row.bookName), row);
      }
      bookOrdersMap := AppendTo(bookOrdersMap, row.bookName, row);
    }

    /** `updateInMemoryMap`: when `bookName` has a list, its entries carrying `removeId` are
        dropped and `add`, if any, goes to the end; a book without a list is left alone. */
    method UpdateInMemoryMap(removeId: Option<int>, add: Option<OrderEntity>, bookName: string)
      requires Valid()
      requires add.Some? ==>
                 add.value.bookName == bookName && add.value.orderId.Some? && add.value.orderId.value in ordersRepository
      modifies this
      ensures Valid()
      ensures bookOrdersMap == (if bookName in old(bookOrdersMap)
                                then old(bookOrdersMap)[bookName := WithoutOrder(old(bookOrdersMap)[bookName], removeId)
                                                                     + (if add.Some? then [add.value] else [])]
                                else old(bookOrdersMap))
      ensures ordersRepository == old(ordersRepository) && nextId == old(nextId)
      ensures saves == old(saves) && isRunning == old(isRunning)
      ensures old(CacheDistinct()) && (add.Some? ==> old(IdsBelow(bookOrdersMap, add.value.orderId.value))) ==> CacheDistinct()
    {
      if bookName in bookOrdersMap {
        var list := bookOrdersMap[bookName];
        var updated := WithoutOrder(list, removeId) + (if add.Some? then [add.value] else []);
        RefiledList(bookOrdersMap, ordersRepository, bookName, removeId, add, updated);
        bookOrdersMap := bookOrdersMap[bookName := updated];
      }
    }

    /** Places a new order. The book is created open when unknown; then a closed book, or a
        client-chosen id (anything but absent or 0), is refused without saving an order.
        Otherwise the row gets a fresh id, starts active and unfilled, and goes to the end of
        its book's list. */
    method AddOrder(order: Order) returns (r: Result<Order, Error>)
      requires Valid()
      modifies this, bookService
      ensures Valid()
      ensures old(bookService.IsBookAvailable(order.bookName)) ==>
                bookService.booksMap == old(bookService.booksMap) && bookService.saves == old(bookService.saves)
      ensures !old(bookService.IsBookAvailable(order.bookName)) ==>
                && bookService.booksMap == old(bookService.booksMap)[order.bookName := false]
                && bookService.bookRepository == old(bookService.bookRepository)[order.bookName := false]
                && bookService.saves == old(bookService.saves) + [Book(order.bookName, false)]
      ensures order.bookName in bookService.booksMap
      ensures r == Failure(BookClosed) <==> bookService.booksMap[order.bookName]
      ensures !bookService.booksMap[order.bookName] && order.orderId.Some? && order.orderId.value != 0 ==>
                r == Failure(if order.orderId.value in old(ordersRepository) then OrderAlreadyExists else OrderNotAvailable)
      ensures r.Success? <==> !bookService.booksMap[order.bookName] && (order.orderId.None? || order.orderId.value == 0)
      ensures r.Failure? ==>
                && ordersRepository == old(ordersRepository) && nextId == old(nextId)
                && bookOrdersMap == old(bookOrdersMap) && saves == old(saves)
      ensures r.Success? ==>
                var row := ToEntity(order).(orderId := Some(old(nextId)));
                && ordersRepository == old(ordersRepository)[old(nextId) := row]
                && nextId == old(nextId) + 1
                && bookOrdersMap == AppendTo(old(bookOrdersMap), order.bookName, row)
                && saves == old(saves) + [row]
                && r.value == ToBean(row)
      ensures old(CacheDistinct()) ==> CacheDistinct()
      ensures isRunning == old(isRunning)
    {
      bookService.AddBookIfDoesNotExists(order.bookName);
      var closed := bookService.IsBookClosed(order.bookName);
      if closed.value {
        return Failure(BookClosed);
      }
      if order.orderId.Some? && order.orderId.value != 0 {
        if order.orderId.value in ordersRepository {
          return Failure(OrderAlreadyExists);
        }
        return Failure(OrderNotAvailable);
      }
      assert IdsBelow(bookOrdersMap, nextId);
      var row := SaveNew(ToEntity(order));
      CacheRow(row);
      r := Success(ToBean(row));
    }

    /** The writes of a successful edit: the new row (a fresh id, pointing back at the old
        one), then the old row made inactive, then the swap in the edited order's book list. */
    method Supersede(order: Order) returns (row: OrderEntity)
      requires Valid()
      requires order.orderId.Some? && order.orderId.value in ordersRepository
      modifies this
      ensures Valid()
      ensures row == ToEntity(order).(orderId := Some(old(nextId)), previousOrderId := order.orderId)
      ensures var id := order.orderId.value;
              var retired := old(ordersRepository)[id].(isActive := false);
              && ordersRepository == old(ordersRepository)[old(nextId) := row][id := retired]
              && saves == old(saves) + [row, retired]
      ensures nextId == old(nextId) + 1
      ensures bookOrdersMap == (if order.bookName in old(bookOrdersMap)
                                then old(bookOrdersMap)[order.bookName :=
                                       WithoutOrder(old(bookOrdersMap)[order.bookName], order.orderId) + [row]]
                                else old(bookOrdersMap))
      ensures old(CacheDistinct()) ==> CacheDistinct()
      ensures isRunning == old(isRunning)
    {
      var pastOrder := ordersRepository[order.orderId.value];
      StoredRowId(ordersRepository, nextId, order.orderId.value);
      assert IdsBelow(bookOrdersMap, nextId);
      row := SaveNew(ToEntity(order).(previousOrderId := order.orderId));
      var retired := pastOrder.(isActive := false);
      SaveExisting(retired);
      UpdateInMemoryMap(pastOrder.orderId, Some(row), order.bookName);
    }

    /** Supersedes an active order: the edited order is stored as a new row pointing back at
        the old one, the old row is saved inactive, and in the cached list of the edited
        order's book (when that book has one) entries with the old id give way to the new row
        at the end. Checks, in order: unknown book, closed book, unknown id, inactive row. */
    method EditOrder(order: Order) returns (r: Result<Order, Error>)
      requires Valid()
      requires order.orderId.Some?
      modifies this
      ensures Valid()
      ensures r == Failure(BookDoesNotExists) <==> order.bookName !in bookService.booksMap
      ensures r == Failure(BookClosed) <==>
                order.bookName in bookService.booksMap && bookService.booksMap[order.bookName]
      ensures r == Failure(OrderNotAvailable) <==>
                && order.bookName in bookService.booksMap && !bookService.booksMap[order.bookName]
                && order.orderId.value !in old(ordersRepository)
      ensures r == Failure(InactiveOrder) <==>
                && order.bookName in bookService.booksMap && !bookService.booksMap[order.bookName]
                && order.orderId.value in old(ordersRepository) && !old(ordersRepository)[order.orderId.value].isActive
      ensures r.Failure? ==> r.error in {BookDoesNotExists, BookClosed, OrderNotAvailable, InactiveOrder}
      ensures r.Failure? ==>
                && ordersRepository == old(ordersRepository) && nextId == old(nextId)
                && bookOrdersMap == old(bookOrdersMap) && saves == old(saves)
      ensures r.Success? ==>
                var id := order.orderId.value;
                var retired := old(ordersRepository)[id].(isActive := false);
                var row := ToEntity(order).(orderId := Some(old(nextId)), previousOrderId := order.orderId);
                && ordersRepository == old(ordersRepository)[old(nextId) := row][id := retired]
                && nextId == old(nextId) + 1
                && saves == old(saves) + [row, retired]
                && bookOrdersMap == (if order.bookName in old(bookOrdersMap)
                                     then old(bookOrdersMap)[order.bookName :=
                                            WithoutOrder(old(bookOrdersMap)[order.bookName], order.orderId) + [row]]
                                     else old(bookOrdersMap))
                && r.value == ToBean(row)
      ensures old(CacheDistinct()) ==> CacheDistinct()
      ensures isRunning == old(isRunning)
    {
      if !bookService.IsBookAvailable(order.bookName) {
        return Failure(BookDoesNotExists);
      }
      var closed := bookService.IsBookClosed(order.bookName);
      if closed.value {
        return Failure(BookClosed);
      }
      var id := order.orderId.value;
      if id !in ordersRepository {
        return Failure(OrderNotAvailable);
      }
      var pastOrder := ordersRepository[id];
      if !pastOrder.isActive {
        return Failure(InactiveOrder);
      }
      var edited := Supersede(order);
      r := Success(ToBean(edited));
    }

    /** Retires a stored order: the row is saved inactive and its id leaves its book's list.
        Checks, in order: unknown id, unknown book, closed book. An already inactive row is
        not refused. */
    method DeleteOrder(orderId: int) returns (r: Outcome<Error>)
      requires Valid()
      modifies this
      ensures Valid()
      ensures r == Fail(OrderNotAvailable) <==> orderId !in old(ordersRepository)
      ensures orderId in old(ordersRepository) ==>
                var b := old(ordersRepository)[orderId].bookName;
                && (r == Fail(BookDoesNotExists) <==> b !in bookService.booksMap)
                && (r == Fail(BookClosed) <==> b in bookService.booksMap && bookService.booksMap[b])
      ensures r.Fail? ==> r.error in {OrderNotAvailable, BookDoesNotExists, BookClosed}
      ensures r.Fail? ==>
                && ordersRepository == old(ordersRepository) && nextId == old(nextId)
                && bookOrdersMap == old(bookOrdersMap) && saves == old(saves)
      ensures r.Pass? ==>
                var retired := old(ordersRepository)[orderId].(isActive := false);
                var b := retired.bookName;
                && ordersRepository == old(ordersRepository)[orderId := retired]
                && nextId == old(nextId)
                && saves == old(saves) + [retired]
                && bookOrdersMap == (if b in old(bookOrdersMap)
                                     then old(bookOrdersMap)[b := WithoutOrder(old(bookOrdersMap)[b], Some(orderId))]
                                     else old(bookOrdersMap))
      ensures old(CacheDistinct()) ==> CacheDistinct()
      ensures isRunning == old(isRunning)
    {
      if orderId !in ordersRepository {
        return Fail(OrderNotAvailable);
      }
      var pastOrder := ordersRepository[orderId];
      if !bookService.IsBookAvailable(pastOrder.bookName) {
        return Fail(BookDoesNotExists);
      }
      var closed := bookService.IsBookClosed(pastOrder.bookName);
      if closed.value {
        return Fail(BookClosed);
      }
      var retired := pastOrder.(isActive := false);
      SaveExisting(retired);
      ghost var before := bookOrdersMap;
      UpdateInMemoryMap(Some(orderId), None, pastOrder.bookName);
      if pastOrder.bookName in before {
        var kept := WithoutOrder(before[pastOrder.bookName], Some(orderId));
        assert kept + [] == kept;
      }
      r := Pass;
    }

    /** Saves a filled row. The fill was made on the cached object itself, so the cache sees
        it too: in the row's book list the entries with its id now read as the row. */
    method UpdateOrder(u: OrderEntity)
      requires Valid()
      requires u.orderId.Some? && u.orderId.value in ordersRepository
      modifies this
      ensures Valid()
      ensures ordersRepository == old(ordersRepository)[u.orderId.value := u]
      ensures bookOrdersMap == ReplaceInCache(old(bookOrdersMap), u)
      ensures saves == old(saves) + [u]
      ensures nextId == old(nextId) && isRunning == old(isRunning)
      ensures old(CacheDistinct()) ==> CacheDistinct()
    {
      SaveExisting(u);
      if u.bookName in bookOrdersMap {
        var list := bookOrdersMap[u.bookName];
        var replaced := ReplaceById(list, u);
        forall o | o in replaced ensures o.bookName == u.bookName && o.orderId.Some? && o.orderId.value in ordersRepository {
          var j :| 0 <= j < |replaced| && replaced[j] == o;
          assert list[j] in list;
        }
        bookOrdersMap := bookOrdersMap[u.bookName := replaced];
      }
    }

    /** One step of `start`: the row with id `i`, when it is stored and active, goes to the end
        of its book's list. */
    method LoadRow(i: int, ghost start: map<string, seq<OrderEntity>>)
      requires Valid()
      requires 1 <= i < nextId
      requires bookOrdersMap == Bucket(start, ActiveRows(ordersRepository, i), OrderBook)
      modifies this
      ensures Valid()
      ensures bookOrdersMap == Bucket(start, ActiveRows(ordersRepository, i + 1), OrderBook)
      ensures ordersRepository == old(ordersRepository) && nextId == old(nextId)
      ensures saves == old(saves) && isRunning == old(isRunning)
      ensures old(ListsDistinct(bookOrdersMap) && IdsBelow(bookOrdersMap, i)) ==> ListsDistinct(bookOrdersMap) && IdsBelow(bookOrdersMap, i + 1)
    {
      ghost var rows := ActiveRows(ordersRepository, i);
      if i in ordersRepository && ordersRepository[i].isActive {
        var row := ordersRepository[i];
        assert ActiveRows(ordersRepository, i + 1) == rows + [row];
        BucketSnoc(start, rows, row, OrderBook);
        CacheRow(row);
      } else {
        assert ActiveRows(ordersRepository, i + 1) == rows + [];
        assert rows + [] == rows;
        if IdsBelow(bookOrdersMap, i) {
          assert IdsBelow(bookOrdersMap, i + 1);
        }
      }
    }

    /** Loads the active rows in id order and appends each to its book's list. Starting with
        an empty cache, no list holds the same order twice. */
    method Start()
      requires Valid()
      modifies this
      ensures Valid()
      ensures bookOrdersMap == Bucket(old(bookOrdersMap), ActiveRows(ordersRepository, nextId), OrderBook)
      ensures ordersRepository == old(ordersRepository) && nextId == old(nextId) && saves == old(saves)
      ensures old(bookOrdersMap) == map[] ==> CacheDistinct()
      ensures isRunning
    {
      var i := 1;
      ghost var fromEmpty := bookOrdersMap.Keys == {};
      if fromEmpty {
        assert ListsDistinct(bookOrdersMap) && IdsBelow(bookOrdersMap, i);
      }
      while i < nextId
        invariant 1 <= i <= nextId
        invariant Valid()
        invariant ordersRepository == old(ordersRepository) && nextId == old(nextId) && saves == old(saves)
        invariant bookOrdersMap == Bucket(old(bookOrdersMap), ActiveRows(ordersRepository, i), OrderBook)
        invariant fromEmpty ==> ListsDistinct(bookOrdersMap) && IdsBelow(bookOrdersMap, i)
      {
        LoadRow(i, old(bookOrdersMap));
        i := i + 1;
      }
      isRunning := true;
    }

    /** Clears the cache: afterwards every book's list reads as empty. */
    method Stop()
      modifies this
      ensures bookOrdersMap == map[]
      ensures forall b :: GetActiveOrdersForBook(b) == []
      ensures ordersRepository == old(ordersRepository) && nextId == old(nextId) && saves == old(saves)
      ensures !isRunning
    {
      bookOrdersMap := map[];
      isRunning := false;
    }
  }
}
