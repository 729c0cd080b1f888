/** The persisted rows of the `entity` package and the conversions of OrderEntity. */
module Entities {
  import opened Wrappers
  import opened Model

  /** A row of the ORDERS table. `orderId` is null until the store assigns it;
      `previousOrderId` links an edited order to the row it supersedes. */
  datatype OrderEntity = OrderEntity(
    orderId: Option<int>,
    instrumentId: int,
    quantity: int,
    remainingQuantity: int,
    entryDate: int,
    isActive: bool,
    orderType: OrderType,
    price: int,
    bookName: string,
    previousOrderId: Option<int>)

  /** A row of the EXECUTIONS table: the store-assigned identity and the copied execution. */
  datatype ExecutionEntity = ExecutionEntity(executionId: int, execution: Execution)

  /** The book an order row belongs to (the key the registries bucket by). */
  function OrderBook(e: OrderEntity): string { e.bookName }

  /** The book an execution row belongs to. */
  function ExecutionBook(e: ExecutionEntity): string { e.execution.bookName }

  /** The state every order starts its life in: no identity yet, nothing superseded,
      active and with nothing filled. */
  predicate IsNewEntity(e: OrderEntity) {
    && e.orderId.None?
    && e.previousOrderId.None?
    && e.isActive
    && e.remainingQuantity == e.quantity
  }

  /** An order is complete once nothing remains to be filled. */
  predicate IsOrderComplete(e: OrderEntity) {
    e.remainingQuantity == 0
  }

  /** The client-visible part of a row: the fields OrderEntity shares with Order. */
  function ToBean(e: OrderEntity): Order {
    Order(e.orderId, e.instrumentId, e.quantity, e.entryDate, e.orderType, e.price, e.bookName)
  }

  /** A new row for a client order: copies the shared fields, then resets the identity and
      starts the order active and unfilled. */
  function ToEntity(o: Order): (e: OrderEntity)
    ensures IsNewEntity(e)
    ensures ToBean(e) == o.(orderId := None)
  {
    OrderEntity(None, o.instrumentId, o.quantity, o.quantity, o.entryDate, true,
                o.orderType, o.price, o.bookName, None)
  }

  /** Converting a row to its bean and back keeps every shared field and resets exactly
      the lifecycle fields: identity, remaining quantity, activity and back-reference. */
  lemma BeanRoundTrip(e: OrderEntity)
    ensures ToEntity(ToBean(e)) ==
            e.(orderId := None, remainingQuantity := e.quantity, isActive := true, previousOrderId := None)
  {
  }

  /** A freshly converted order is complete exactly when it was placed for nothing. */
  lemma NewOrderComplete(o: Order)
    ensures IsOrderComplete(ToEntity(o)) <==> o.quantity == 0
  {
  }

  /** No two rows of a list share an identity. */
  ghost predicate DistinctIds(s: seq<OrderEntity>) {
    forall i, j :: 0 <= i < j < |s| ==> s[i].orderId != s[j].orderId
  }

  /** The tail of a list with distinct identities has distinct identities, none of them the head's. */
  lemma DistinctTail(s: seq<OrderEntity>)
    requires s != [] && DistinctIds(s)
    ensures DistinctIds(s[1..])
    ensures forall o :: o in s[1..] ==> o.orderId != s[0].orderId
  {
    var tail := s[1..];
    forall i, j | 0 <= i < j < |tail| ensures tail[i].orderId != tail[j].orderId {
      assert tail[i] == s[i + 1] && tail[j] == s[j + 1];
    }
    forall o | o in tail ensures o.orderId != s[0].orderId {
      var j :| 0 <= j < |tail| && tail[j] == o;
      assert s[j + 1] == o;
    }
  }

  /** A row with an identity that no row of a distinct list carries can go in front of it. */
  lemma DistinctCons(e: OrderEntity, s: seq<OrderEntity>)
    requires DistinctIds(s)
    requires forall o :: o in s ==> o.orderId != e.orderId
    ensures DistinctIds([e] + s)
  {
    var r := [e] + s;
    forall i, j | 0 <= i < j < |r| ensures r[i].orderId != r[j].orderId {
      assert r[j] == s[j - 1];
      if i > 0 {
        assert r[i] == s[i - 1];
      }
    }
  }

  /** The front part of a list with distinct identities has distinct identities, none of them
      the last row's. */
  lemma DistinctInit(s: seq<OrderEntity>)
    requires s != [] && DistinctIds(s)
    ensures DistinctIds(s[..|s| - 1])
    ensures forall o :: o in s[..|s| - 1] ==> o.orderId != s[|s| - 1].orderId
  {
    var init := s[..|s| - 1];
    forall i, j | 0 <= i < j < |init| ensures init[i].orderId != init[j].orderId {
      assert init[i] == s[i] && init[j] == s[j];
    }
    forall o | o in init ensures o.orderId != s[|s| - 1].orderId {
      var j :| 0 <= j < |init| && init[j] == o;
      assert s[j] == o;
    }
  }
}
