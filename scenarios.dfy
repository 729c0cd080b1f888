/** The fixture of six active orders in book "book" used throughout the repository's service
    tests, and what the model computes on it. */
module Scenarios {
  import opened Wrappers
  import opened Model
  import opened Entities
  import opened Buckets
  import opened Matching
  import opened OrderRegistry

  /** One fixture row: active, in book "book", no predecessor. */
  function Fixture(id: int, instrumentId: int, quantity: int, price: int, orderType: OrderType,
                   remaining: int, entryDate: int): OrderEntity
  {
    OrderEntity(Some(id), instrumentId, quantity, remaining, entryDate, true, orderType, price, "book", None)
  }

  /** The six fixture orders, entered at the non-decreasing times `d[0] .. d[5]`. */
  function MockActiveOrders(d: seq<int>): (r: seq<OrderEntity>)
    requires |d| == 6
    ensures |r| == 6 && forall k :: 0 <= k < 6 ==> r[k].orderId == Some(k + 1) && r[k].bookName == "book"
  {
    [ Fixture(1, 42, 50, 40, BUY, 50, d[0]),
      Fixture(2, 43, 50, 40, BUY, 50, d[1]),
      Fixture(3, 42, 50, 37, SELL, 50, d[2]),
      Fixture(4, 42, 40, 41, BUY, 40, d[3]),
      Fixture(5, 44, 40, 42, BUY, 0, d[4]),
      Fixture(6, 44, 40, 41, SELL, 0, d[5]) ]
  }

  ghost predicate Ascending(d: seq<int>) {
    forall i, j :: 0 <= i < j < |d| ==> d[i] <= d[j]
  }

  /** The fixture as a chain of single rows, so that the list functions unfold one row at a time. */
  lemma Chain(d: seq<int>) returns (r0: seq<OrderEntity>, r1: seq<OrderEntity>, r2: seq<OrderEntity>,
                                    r3: seq<OrderEntity>, r4: seq<OrderEntity>, r5: seq<OrderEntity>)
    requires |d| == 6
    ensures var o := MockActiveOrders(d);
            && r5 == [o[5]] && r4 == [o[4]] + r5 && r3 == [o[3]] + r4
            && r2 == [o[2]] + r3 && r1 == [o[1]] + r2 && r0 == [o[0]] + r1 && r0 == o
            && r5[1..] == [] && r4[1..] == r5 && r3[1..] == r4 && r2[1..] == r3 && r1[1..] == r2 && r0[1..] == r1
  {
    var o := MockActiveOrders(d);
    r5 := [o[5]];
    r4 := [o[4]] + r5;
    r3 := [o[3]] + r4;
    r2 := [o[2]] + r3;
    r1 := [o[1]] + r2;
    r0 := [o[0]] + r1;
    assert r4[1..] == r5 && r3[1..] == r4 && r2[1..] == r3 && r1[1..] == r2 && r0[1..] == r1;
  }

  /** Two rows in entry-date order stay in that order. */
  lemma SortPair(a: OrderEntity, b: OrderEntity)
    requires a.entryDate <= b.entryDate
    ensures SortByEntryDate([a, b]) == [a, b]
  {
    assert [a, b][1..] == [b];
    assert [b][1..] == [];
  }

  /** Orders 1 and 4 are the fixture's only BUY orders on instrument 42 priced at 39 or more. */
  lemma OfferEligible(d: seq<int>)
    requires |d| == 6
    ensures var o := MockActiveOrders(d);
            EligibleOrders(o, Execution(42, 70, OFFER, 39, "book")) == [o[0], o[3]]
  {
    var o := MockActiveOrders(d);
    var x := Execution(42, 70, OFFER, 39, "book");
    var r0, r1, r2, r3, r4, r5 := Chain(d);
    assert EligibleOrders(r5, x) == [];
    assert EligibleOrders(r4, x) == [];
    assert EligibleOrders(r3, x) == [o[3]];
    assert EligibleOrders(r2, x) == [o[3]];
    assert EligibleOrders(r1, x) == [o[3]];
  }

  /** An OFFER of 70 at 39 on instrument 42 fills order 1 completely and order 4 down to 20,
      in that order, and writes nothing else. */
  lemma OfferFillsOrdersOneAndFour(d: seq<int>)
    requires |d| == 6 && Ascending(d)
    ensures var o := MockActiveOrders(d);
            MatchUpdates(o, Execution(42, 70, OFFER, 39, "book"))
              == [o[0].(remainingQuantity := 0), o[3].(remainingQuantity := 20)]
  {
    var o := MockActiveOrders(d);
    var x := Execution(42, 70, OFFER, 39, "book");
    OfferEligible(d);
    var c := [o[0], o[3]];
    assert d[0] <= d[3];
    SortPair(o[0], o[3]);
    assert Candidates(o, x) == c;
    FillsPair(o[0], o[3], 70);
  }

  /** A quantity larger than the first candidate's and smaller than both together empties the
      first and leaves the rest on the second. */
  lemma FillsPair(a: OrderEntity, b: OrderEntity, left: int)
    requires 0 <= a.remainingQuantity < left < a.remainingQuantity + b.remainingQuantity
    ensures Fills([a, b], left)
              == [a.(remainingQuantity := 0),
                  b.(remainingQuantity := b.remainingQuantity - (left - a.remainingQuantity))]
  {
    assert [a, b][1..] == [b] && [b][1..] == [];
  }

  /** An ASK of 30 at 39 on instrument 42 fills order 3 down to 20 and writes nothing else. */
  lemma AskFillsOrderThree(d: seq<int>)
    requires |d| == 6
    ensures var o := MockActiveOrders(d);
            MatchUpdates(o, Execution(42, 30, ASK, 39, "book")) == [o[2].(remainingQuantity := 20)]
  {
    var o := MockActiveOrders(d);
    var x := Execution(42, 30, ASK, 39, "book");
    var r0, r1, r2, r3, r4, r5 := Chain(d);
    assert EligibleOrders(r5, x) == [];
    assert EligibleOrders(r4, x) == [];
    assert EligibleOrders(r3, x) == [];
    assert EligibleOrders(r2, x) == [o[2]];
    assert EligibleOrders(r1, x) == [o[2]];
    assert EligibleOrders(r0, x) == [o[2]];
    var c := [o[2]];
    assert c[1..] == [];
    assert SortByEntryDate(c) == c;
  }

  /** Orders 5 and 6 are the fixture's completed orders. */
  lemma FixtureCompleted(d: seq<int>)
    requires |d| == 6
    ensures var o := MockActiveOrders(d);
            CompletedOrders(o) == [o[4], o[5]]
  {
    var o := MockActiveOrders(d);
    var r0, r1, r2, r3, r4, r5 := Chain(d);
    assert CompletedOrders(r5) == [o[5]];
    assert CompletedOrders(r4) == [o[4], o[5]];
    assert CompletedOrders(r3) == [o[4], o[5]];
    assert CompletedOrders(r2) == [o[4], o[5]];
    assert CompletedOrders(r1) == [o[4], o[5]];
  }

  /** Orders 1 to 4 are the fixture's pending orders. */
  lemma FixturePending(d: seq<int>)
    requires |d| == 6
    ensures var o := MockActiveOrders(d);
            PendingOrders(o) == [o[0], o[1], o[2], o[3]]
  {
    var o := MockActiveOrders(d);
    var r0, r1, r2, r3, r4, r5 := Chain(d);
    assert PendingOrders(r5) == [];
    assert PendingOrders(r4) == [];
    assert PendingOrders(r3) == [o[3]];
    assert PendingOrders(r2) == [o[2], o[3]];
    assert PendingOrders(r1) == [o[1], o[2], o[3]];
  }

  /** Loading reads the fixture back in id order. */
  lemma FixtureLoadsInIdOrder(d: seq<int>)
    requires |d| == 6
    ensures var o := MockActiveOrders(d);
            ActiveRows(map[1 := o[0], 2 := o[1], 3 := o[2], 4 := o[3], 5 := o[4], 6 := o[5]], 7) == o
  {
    var o := MockActiveOrders(d);
    var store := map[1 := o[0], 2 := o[1], 3 := o[2], 4 := o[3], 5 := o[4], 6 := o[5]];
    assert ActiveRows(store, 1) == o[..0];
    assert ActiveRows(store, 2) == o[..1];
    assert ActiveRows(store, 3) == o[..2];
    assert ActiveRows(store, 4) == o[..3];
    assert ActiveRows(store, 5) == o[..4];
    assert ActiveRows(store, 6) == o[..5];
    assert ActiveRows(store, 7) == o[..6] == o;
  }

  /** Loading the fixture stored under ids 1 to 6 files all six orders under "book", in id
      order, and creates no other book's list. */
  lemma StartLoadsTheFixture(d: seq<int>)
    requires |d| == 6
    ensures var o := MockActiveOrders(d);
            var store := map[1 := o[0], 2 := o[1], 3 := o[2], 4 := o[3], 5 := o[4], 6 := o[5]];
            var cache := Bucket(map[], ActiveRows(store, 7), OrderBook);
            cache.Keys == {"book"} && cache["book"] == o
  {
    var o := MockActiveOrders(d);
    FixtureLoadsInIdOrder(d);
    assert forall v :: v in o ==> OrderBook(v) == "book";
    BucketOneKey(o, OrderBook, "book");
  }
}
