/** The matching pipeline of ExecutionServiceImpl as pure functions: the eligibility filter,
    the stable sort by entry date and the greedy time-priority fill, with the properties
    the loop in ExecutionLog is proved to compute. */
module Matching {
  import opened Model
  import opened Entities

  // ---- Eligibility ------------------------------------------------------------

  /** The four stream filters: something left to fill, the side the execution consumes,
      the same instrument, and a compatible price. */
  predicate Eligible(o: OrderEntity, x: Execution) {
    && o.remainingQuantity > 0
    && (match x.executionType
        case OFFER => o.orderType == BUY && o.price >= x.price
        case ASK => o.orderType == SELL && o.price <= x.price)
    && o.instrumentId == x.instrumentId
  }

  /** The eligible orders, in list order. */
  function EligibleOrders(orders: seq<OrderEntity>, x: Execution): seq<OrderEntity> {
    if orders == [] then []
    else (if Eligible(orders[0], x) then [orders[0]] else []) + EligibleOrders(orders[1..], x)
  }

  /** The filter keeps exactly the eligible orders of the list, and never more of them. */
  lemma {:induction false} EligibleMembers(orders: seq<OrderEntity>, x: Execution)
    ensures forall o :: o in EligibleOrders(orders, x) <==> o in orders && Eligible(o, x)
    ensures |EligibleOrders(orders, x)| <= |orders|
  {
    if orders != [] {
      EligibleMembers(orders[1..], x);
      assert orders == [orders[0]] + orders[1..];
    }
  }

  // ---- Stable sort by entry date (`sorted(Comparator.comparing(getEntryDate))`) ----

  ghost predicate SortedByEntryDate(s: seq<OrderEntity>) {
    forall i, j :: 0 <= i < j < |s| ==> s[i].entryDate <= s[j].entryDate
  }

  /** Inserts `e` before the first element that is not older than it. */
  function InsertByEntryDate(e: OrderEntity, s: seq<OrderEntity>): (r: seq<OrderEntity>)
    ensures multiset(r) == multiset(s) + multiset{e}
    ensures forall o :: o in r <==> o == e || o in s
  {
    if s == [] || e.entryDate <= s[0].entryDate then [e] + s
    else
      assert s == [s[0]] + s[1..];
      [s[0]] + InsertByEntryDate(e, s[1..])
  }

  /** Every element of `s` is entered no earlier than `d`. */
  ghost predicate NotBefore(s: seq<OrderEntity>, d: int) {
    forall o :: o in s ==> d <= o.entryDate
  }

  lemma {:induction false} InsertSorted(e: OrderEntity, s: seq<OrderEntity>)
    requires SortedByEntryDate(s)
    ensures SortedByEntryDate(InsertByEntryDate(e, s))
  {
    if s == [] || e.entryDate <= s[0].entryDate {
      SortedCons(e, s);
    } else {
      var tail := s[1..];
      SortedTail(s);
      InsertSorted(e, tail);
      var rest := InsertByEntryDate(e, tail);
      assert NotBefore(rest, s[0].entryDate) by {
        forall o | o in rest ensures s[0].entryDate <= o.entryDate {
          if o != e {
            var j :| 0 <= j < |tail| && tail[j] == o;
            assert s[j + 1] == o;
          }
        }
      }
      SortedConsBound(s[0], rest);
    }
  }

  lemma SortedTail(s: seq<OrderEntity>)
    requires s != [] && SortedByEntryDate(s)
    ensures SortedByEntryDate(s[1..])
  {
    var tail := s[1..];
    forall i, j | 0 <= i < j < |tail| ensures tail[i].entryDate <= tail[j].entryDate {
      assert tail[i] == s[i + 1] && tail[j] == s[j + 1];
    }
  }

  lemma SortedCons(e: OrderEntity, s: seq<OrderEntity>)
    requires SortedByEntryDate(s)
    requires s == [] || e.entryDate <= s[0].entryDate
    ensures SortedByEntryDate([e] + s)
  {
    var r := [e] + s;
    forall i, j | 0 <= i < j < |r| ensures r[i].entryDate <= r[j].entryDate {
      assert r[j] == s[j - 1];
      if i > 0 {
        assert r[i] == s[i - 1];
      } else if j > 1 {
        assert s[0].entryDate <= s[j - 1].entryDate;
      }
    }
  }

  lemma SortedConsBound(e: OrderEntity, s: seq<OrderEntity>)
    requires SortedByEntryDate(s)
    requires NotBefore(s, e.entryDate)
    ensures SortedByEntryDate([e] + s)
  {
    var r := [e] + s;
    forall i, j | 0 <= i < j < |r| ensures r[i].entryDate <= r[j].entryDate {
      assert r[j] == s[j - 1];
      if i > 0 {
        assert r[i] == s[i - 1];
      } else {
        assert r[j] in s;
      }
    }
  }

  /** Insertion sort; an earlier element goes before later ones with the same date. */
  function SortByEntryDate(s: seq<OrderEntity>): (r: seq<OrderEntity>)
    ensures multiset(r) == multiset(s)
    ensures SortedByEntryDate(r)
  {
    if s == [] then []
    else
      assert s == [s[0]] + s[1..];
      InsertSorted(s[0], SortByEntryDate(s[1..]));
      InsertByEntryDate(s[0], SortByEntryDate(s[1..]))
  }

  /** The orders entered at time `d`, in order. */
  function WithEntryDate(s: seq<OrderEntity>, d: int): seq<OrderEntity> {
    if s == [] then []
    else (if s[0].entryDate == d then [s[0]] else []) + WithEntryDate(s[1..], d)
  }

  lemma {:induction false} InsertKeepsTies(e: OrderEntity, s: seq<OrderEntity>, d: int)
    ensures WithEntryDate(InsertByEntryDate(e, s), d) == (if e.entryDate == d then [e] else []) + WithEntryDate(s, d)
  {
    if s == [] || e.entryDate <= s[0].entryDate {
      assert ([e] + s)[1..] == s;
    } else {
      var rest := InsertByEntryDate(e, s[1..]);
      InsertKeepsTies(e, s[1..], d);
      assert ([s[0]] + rest)[1..] == rest;
    }
  }

  /** The sort is stable: among orders with the same entry date the list order is kept. */
  lemma {:induction false} SortIsStable(s: seq<OrderEntity>, d: int)
    ensures WithEntryDate(SortByEntryDate(s), d) == WithEntryDate(s, d)
  {
    if s != [] {
      SortIsStable(s[1..], d);
      InsertKeepsTies(s[0], SortByEntryDate(s[1..]), d);
    }
  }

  /** Filtering by date and by eligibility commute. */
  lemma {:induction false} EligibleWithEntryDate(s: seq<OrderEntity>, x: Execution, d: int)
    ensures WithEntryDate(EligibleOrders(s, x), d) == EligibleOrders(WithEntryDate(s, d), x)
  {
    if s != [] {
      EligibleWithEntryDate(s[1..], x, d);
      var h := if Eligible(s[0], x) then [s[0]] else [];
      assert (h + EligibleOrders(s[1..], x)) == EligibleOrders(s, x);
      WithEntryDateAppend(h, EligibleOrders(s[1..], x), d);
      var g := if s[0].entryDate == d then [s[0]] else [];
      EligibleAppend(g, WithEntryDate(s[1..], d), x);
    }
  }

  lemma {:induction false} WithEntryDateAppend(a: seq<OrderEntity>, b: seq<OrderEntity>, d: int)
    ensures WithEntryDate(a + b, d) == WithEntryDate(a, d) + WithEntryDate(b, d)
  {
    if a == [] {
      assert a + b == b;
    } else {
      var g := if a[0].entryDate == d then [a[0]] else [];
      assert (a + b)[0] == a[0] && (a + b)[1..] == a[1..] + b;
      WithEntryDateAppend(a[1..], b, d);
      assert WithEntryDate(a + b, d) == g + WithEntryDate(a[1..] + b, d);
      assert WithEntryDate(a, d) == g + WithEntryDate(a[1..], d);
    }
  }

  lemma {:induction false} EligibleAppend(a: seq<OrderEntity>, b: seq<OrderEntity>, x: Execution)
    ensures EligibleOrders(a + b, x) == EligibleOrders(a, x) + EligibleOrders(b, x)
  {
    if a == [] {
      assert a + b == b;
    } else {
      assert (a + b)[1..] == a[1..] + b;
      EligibleAppend(a[1..], b, x);
    }
  }

  // ---- The candidates and the greedy pass -------------------------------------

  /** The list the fill loop walks: the eligible orders, oldest first. */
  function Candidates(orders: seq<OrderEntity>, x: Execution): (r: seq<OrderEntity>)
    ensures forall c :: c in r ==> c in orders && Eligible(c, x)
    ensures multiset(r) == multiset(EligibleOrders(orders, x))
    ensures SortedByEntryDate(r)
  {
    var r := SortByEntryDate(EligibleOrders(orders, x));
    EligibleMembers(orders, x);
    assert forall c :: c in r ==> c in EligibleOrders(orders, x) by {
      forall c | c in r ensures c in EligibleOrders(orders, x) {
        assert c in multiset(r);
      }
    }
    r
  }

  function Min(a: int, b: int): int { if a <= b then a else b }

  /** The orders the greedy pass writes, in the order it writes them: each candidate in turn
      gives `min(its remaining quantity, what is left)` until nothing is left. */
  function Fills(candidates: seq<OrderEntity>, left: int): (updates: seq<OrderEntity>)
    ensures |updates| <= |candidates|
    ensures left <= 0 ==> updates == []
    ensures forall k :: 0 <= k < |updates| ==>
              updates[k] == candidates[k].(remainingQuantity := updates[k].remainingQuantity)
    ensures forall k :: 0 <= k < |updates| && candidates[k].remainingQuantity > 0 ==>
              0 <= updates[k].remainingQuantity < candidates[k].remainingQuantity
  {
    if candidates == [] || left <= 0 then []
    else
      var c := candidates[0];
      var fill := Min(c.remainingQuantity, left);
      [c.(remainingQuantity := c.remainingQuantity - fill)] + Fills(candidates[1..], left - fill)
  }

  /** The same pass read from position `i` of the candidates on, the way the fill loop walks
      them; `FillsFromIsFills` shows it is the pass over the suffix. */
  function FillsFrom(candidates: seq<OrderEntity>, i: nat, left: int): seq<OrderEntity>
    requires i <= |candidates|
    decreases |candidates| - i
  {
    if i == |candidates| || left <= 0 then []
    else
      var c := candidates[i];
      var fill := Min(c.remainingQuantity, left);
      [c.(remainingQuantity := c.remainingQuantity - fill)] + FillsFrom(candidates, i + 1, left - fill)
  }

  /** Reading the candidates from position `i` is the pass over the suffix from `i`; in
      particular `FillsFrom(candidates, 0, left) == Fills(candidates, left)`. */
  lemma {:induction false} FillsFromIsFills(candidates: seq<OrderEntity>, i: nat, left: int)
    requires i <= |candidates|
    ensures FillsFrom(candidates, i, left) == Fills(candidates[i..], left)
    decreases |candidates| - i
  {
    if i < |candidates| && left > 0 {
      var c := candidates[i];
      var fill := Min(c.remainingQuantity, left);
      var filled := c.(remainingQuantity := c.remainingQuantity - fill);
      var suffix := candidates[i..];
      assert suffix[0] == c && suffix[1..] == candidates[i + 1..];
      assert Fills(suffix, left) == [filled] + Fills(suffix[1..], left - fill);
      FillsFromIsFills(candidates, i + 1, left - fill);
      assert FillsFrom(candidates, i, left) == [filled] + FillsFrom(candidates, i + 1, left - fill);
    }
  }

  /** The fill loop's invariant: the rows written so far followed by the rest of the pass
      from position `i`, with `left` still to fill, make up the whole pass. */
  ghost predicate Resumes(done: seq<OrderEntity>, candidates: seq<OrderEntity>, i: nat, left: int, total: int)
    requires i <= |candidates|
  {
    done + FillsFrom(candidates, i, left) == FillsFrom(candidates, 0, total)
  }

  /** One step of the fill loop: with `left > 0`, the order at position `i` is filled by
      `fill = min(its remaining quantity, left)` and the pass resumes after it. */
  lemma ResumesStep(done: seq<OrderEntity>, candidates: seq<OrderEntity>, i: nat, left: int, total: int,
                    fill: int, filled: OrderEntity)
    requires i < |candidates| && left > 0 && Resumes(done, candidates, i, left, total)
    requires fill == Min(candidates[i].remainingQuantity, left)
    requires filled == candidates[i].(remainingQuantity := candidates[i].remainingQuantity - fill)
    ensures Resumes(done + [filled], candidates, i + 1, left - fill, total)
  {
    assert (done + [filled]) + FillsFrom(candidates, i + 1, left - fill)
        == done + ([filled] + FillsFrom(candidates, i + 1, left - fill));
  }

  /** The loop ends, by exhaustion or by running out, with the whole pass written. */
  lemma ResumesDone(done: seq<OrderEntity>, candidates: seq<OrderEntity>, i: nat, left: int, total: int)
    requires i <= |candidates| && Resumes(done, candidates, i, left, total)
    requires i == |candidates| || left <= 0
    ensures done == Fills(candidates, total)
  {
    assert done + [] == done;
    FillsFromIsFills(candidates, 0, total);
    assert candidates[0..] == candidates;
  }

  /** What the whole pipeline writes for an execution against a book's active orders. */
  function MatchUpdates(orders: seq<OrderEntity>, x: Execution): seq<OrderEntity> {
    Fills(Candidates(orders, x), x.quantity)
  }

  /** Sum of the quantities still to be filled. */
  function SumRemaining(s: seq<OrderEntity>): int {
    if s == [] then 0 else s[0].remainingQuantity + SumRemaining(s[1..])
  }

  // ---- Properties of the greedy pass ------------------------------------------

  /** Time priority: every written order except the last one was filled completely, so a
      later candidate receives a fill only after all earlier ones have reached zero. */
  lemma {:induction false} FillsPriority(candidates: seq<OrderEntity>, left: int)
    ensures forall k :: 0 <= k < |Fills(candidates, left)| - 1 ==> Fills(candidates, left)[k].remainingQuantity == 0
  {
    if candidates != [] && left > 0 {
      var c := candidates[0];
      var fill := Min(c.remainingQuantity, left);
      var rest := Fills(candidates[1..], left - fill);
      FillsPriority(candidates[1..], left - fill);
      assert Fills(candidates, left) == [c.(remainingQuantity := c.remainingQuantity - fill)] + rest;
      if rest != [] {
        assert fill == c.remainingQuantity;
      }
    }
  }

  lemma {:induction false} SumRemainingPositive(s: seq<OrderEntity>)
    requires forall k :: 0 <= k < |s| ==> s[k].remainingQuantity > 0
    ensures SumRemaining(s) >= 0
  {
    if s != [] {
      SumRemainingPositive(s[1..]);
    }
  }

  /** Conservation: the quantity taken from the written orders is the execution's quantity,
      or everything the candidates had when that is less; nothing when the quantity is not positive. */
  lemma {:induction false} FillsConserve(candidates: seq<OrderEntity>, left: int)
    requires forall k :: 0 <= k < |candidates| ==> candidates[k].remainingQuantity > 0
    ensures var updates := Fills(candidates, left);
            SumRemaining(candidates[..|updates|]) - SumRemaining(updates) ==
            if left <= 0 then 0 else Min(left, SumRemaining(candidates))
  {
    if candidates == [] || left <= 0 {
    } else {
      var c := candidates[0];
      var fill := Min(c.remainingQuantity, left);
      var tail := candidates[1..];
      var rest := Fills(tail, left - fill);
      FillsConserve(tail, left - fill);
      SumRemainingPositive(tail);
      var updates := Fills(candidates, left);
      assert updates == [c.(remainingQuantity := c.remainingQuantity - fill)] + rest;
      assert candidates[..|updates|] == [c] + tail[..|rest|];
      assert updates[1..] == rest;
      assert ([c] + tail[..|rest|])[1..] == tail[..|rest|];
      assert candidates == [c] + tail;
    }
  }

  lemma {:induction false} SumInsert(e: OrderEntity, s: seq<OrderEntity>)
    ensures SumRemaining(InsertByEntryDate(e, s)) == e.remainingQuantity + SumRemaining(s)
  {
    if s == [] || e.entryDate <= s[0].entryDate {
      assert ([e] + s)[1..] == s;
    } else {
      SumInsert(e, s[1..]);
      assert ([s[0]] + InsertByEntryDate(e, s[1..]))[1..] == InsertByEntryDate(e, s[1..]);
    }
  }

  lemma {:induction false} SumSort(s: seq<OrderEntity>)
    ensures SumRemaining(SortByEntryDate(s)) == SumRemaining(s)
  {
    if s != [] {
      SumSort(s[1..]);
      SumInsert(s[0], SortByEntryDate(s[1..]));
    }
  }

  /** Total filled = min(execution quantity, sum of the eligible remaining quantities);
      a non-positive quantity fills nothing and an under-fill is no error. */
  lemma MatchTotal(orders: seq<OrderEntity>, x: Execution)
    ensures var c := Candidates(orders, x);
            var updates := MatchUpdates(orders, x);
            SumRemaining(c[..|updates|]) - SumRemaining(updates) ==
            if x.quantity <= 0 then 0 else Min(x.quantity, SumRemaining(EligibleOrders(orders, x)))
  {
    var c := Candidates(orders, x);
    assert forall k :: 0 <= k < |c| ==> c[k] in c;
    FillsConserve(c, x.quantity);
    SumSort(EligibleOrders(orders, x));
  }

  /** Every written order is an eligible order of the list with its remaining quantity
      lowered by a fill in (0, old remaining]; writes follow the candidates' order and
      every earlier candidate was emptied before the next one was touched. */
  lemma MatchTouchesEligibleInTimeOrder(orders: seq<OrderEntity>, x: Execution)
    ensures var c := Candidates(orders, x);
            var updates := MatchUpdates(orders, x);
            && |updates| <= |c|
            && (forall k :: 0 <= k < |updates| ==>
                  && c[k] in orders && Eligible(c[k], x)
                  && updates[k] == c[k].(remainingQuantity := updates[k].remainingQuantity)
                  && 0 <= updates[k].remainingQuantity < c[k].remainingQuantity)
            && (forall k :: 0 <= k < |updates| - 1 ==> updates[k].remainingQuantity == 0)
            && (forall i, j :: 0 <= i < j < |updates| ==> updates[i].entryDate <= updates[j].entryDate)
  {
    var c := Candidates(orders, x);
    assert forall k :: 0 <= k < |c| ==> c[k] in c;
    FillsPriority(c, x.quantity);
  }

  /** Every written row carries the identity of an eligible order of the list. */
  lemma WrittenComeFromList(orders: seq<OrderEntity>, x: Execution)
    ensures forall v :: v in MatchUpdates(orders, x) ==>
              exists o :: o in orders && Eligible(o, x) && o.orderId == v.orderId
  {
    var c := Candidates(orders, x);
    var u := MatchUpdates(orders, x);
    forall v | v in u ensures exists o :: o in orders && Eligible(o, x) && o.orderId == v.orderId {
      var k :| 0 <= k < |u| && u[k] == v;
      assert c[k] in c && u[k].orderId == c[k].orderId;
    }
  }

  /** Ties on the entry date keep list order among the candidates. */
  lemma CandidatesKeepTies(orders: seq<OrderEntity>, x: Execution, d: int)
    ensures WithEntryDate(Candidates(orders, x), d) == EligibleOrders(WithEntryDate(orders, d), x)
  {
    SortIsStable(EligibleOrders(orders, x), d);
    EligibleWithEntryDate(orders, x, d);
  }

  // ---- Distinct identities ----------------------------------------------------

  lemma {:induction false} EligibleDistinct(s: seq<OrderEntity>, x: Execution)
    requires DistinctIds(s)
    ensures DistinctIds(EligibleOrders(s, x))
  {
    if s != [] {
      DistinctTail(s);
      EligibleDistinct(s[1..], x);
      if Eligible(s[0], x) {
        EligibleMembers(s[1..], x);
        DistinctCons(s[0], EligibleOrders(s[1..], x));
      }
    }
  }

  lemma {:induction false} InsertDistinct(e: OrderEntity, s: seq<OrderEntity>)
    requires DistinctIds(s)
    requires forall o :: o in s ==> o.orderId != e.orderId
    ensures DistinctIds(InsertByEntryDate(e, s))
  {
    if s == [] || e.entryDate <= s[0].entryDate {
      DistinctCons(e, s);
    } else {
      DistinctTail(s);
      assert forall o :: o in s[1..] ==> o in s;
      InsertDistinct(e, s[1..]);
      DistinctCons(s[0], InsertByEntryDate(e, s[1..]));
    }
  }

  lemma {:induction false} SortDistinct(s: seq<OrderEntity>)
    requires DistinctIds(s)
    ensures DistinctIds(SortByEntryDate(s))
  {
    if s != [] {
      DistinctTail(s);
      SortDistinct(s[1..]);
      var sorted := SortByEntryDate(s[1..]);
      forall o | o in sorted ensures o.orderId != s[0].orderId {
        assert o in multiset(sorted);
      }
      InsertDistinct(s[0], sorted);
    }
  }

  /** Each order is written at most once: the written orders have distinct identities
      whenever the book's list has. */
  lemma MatchWritesEachOrderOnce(orders: seq<OrderEntity>, x: Execution)
    requires DistinctIds(orders)
    ensures DistinctIds(MatchUpdates(orders, x))
  {
    EligibleDistinct(orders, x);
    SortDistinct(EligibleOrders(orders, x));
    var c := Candidates(orders, x);
    var u := MatchUpdates(orders, x);
    forall i, j | 0 <= i < j < |u| ensures u[i].orderId != u[j].orderId {
      assert u[i].orderId == c[i].orderId && u[j].orderId == c[j].orderId;
    }
  }
}
