/** The per-participant order index: participant -> signed pair id -> the orders
    that participant submitted for that pair, in submission order. An absent entry
    reads as the empty sequence, as a Go map read yields a nil slice. */
module UserOrders {
  import opened Values

  type Index = map<Address, map<i32, seq<Order>>>

  /** `viewOrders`: the participant's orders for one pair. */
  function View(idx: Index, pairId: i32, user: Address): seq<Order> {
    if user in idx && pairId in idx[user] then idx[user][pairId] else []
  }

  /** Store `orders` as the participant's sequence for `pairId`. */
  function SetView(idx: Index, user: Address, pairId: i32, orders: seq<Order>): (r: Index)
    ensures forall u, p :: View(r, p, u) == if u == user && p == pairId then orders else View(idx, p, u)
  {
    idx[user := (if user in idx then idx[user] else map[])[pairId := orders]]
  }

  /** The append in `addOrder`: the order goes to the end of its submitter's
      sequence for its pair; every other sequence is unchanged. */
  function Append(idx: Index, order: Order): (r: Index)
    ensures View(r, order.pairId, order.from) == View(idx, order.pairId, order.from) + [order]
    ensures forall u, p | u != order.from || p != order.pairId :: View(r, p, u) == View(idx, p, u)
  {
    SetView(idx, order.from, order.pairId, View(idx, order.pairId, order.from) + [order])
  }

  predicate HasId(orders: seq<Order>, orderId: u64) {
    exists i | 0 <= i < |orders| :: orders[i].id == orderId
  }

  /** Reference definition: drop the first order whose id is `orderId`. */
  function RemoveFirst(orders: seq<Order>, orderId: u64): seq<Order> {
    if orders == [] then []
    else if orders[0].id == orderId then orders[1..]
    else [orders[0]] + RemoveFirst(orders[1..], orderId)
  }

  /** `deleteUserOrder` with its result stored back: the participant's sequence for
      the pair loses its first order with that id; an absent id changes nothing. */
  function RemoveOrder(idx: Index, pairId: i32, user: Address, orderId: u64): Index {
    var orders := View(idx, pairId, user);
    if HasId(orders, orderId) then SetView(idx, user, pairId, RemoveFirst(orders, orderId))
    else idx
  }

  /** What the map holds after `deleteUserOrder` as written: the splice runs on a
      local slice that shares the stored slice's backing array, so the stored slice
      keeps its length and sees the shifted elements, its last order now twice: the
      intended removal followed by a second copy of the last order. */
  function StoredAfterDeleteAsWritten(orders: seq<Order>, orderId: u64): (r: seq<Order>)
    ensures |r| == |orders|
    ensures HasId(orders, orderId) ==> r == RemoveFirst(orders, orderId) + [orders[|orders| - 1]]
    ensures !HasId(orders, orderId) ==> r == RemoveFirst(orders, orderId)
  {
    if HasId(orders, orderId) then
      var k := FirstIndexOf(orders, orderId);
      RemoveFirstSplices(orders, orderId, k);
      orders[..k] + orders[k + 1..] + [orders[|orders| - 1]]
    else
      RemoveFirstAbsent(orders, orderId);
      orders
  }

  function FirstIndexOf(orders: seq<Order>, orderId: u64): (k: nat)
    requires HasId(orders, orderId)
    ensures k < |orders| && orders[k].id == orderId
    ensures forall j | 0 <= j < k :: orders[j].id != orderId
  {
    if orders[0].id == orderId then 0
    else
      assert HasId(orders[1..], orderId) by {
        var i :| 0 <= i < |orders| && orders[i].id == orderId;
        assert orders[1..][i - 1].id == orderId;
      }
      1 + FirstIndexOf(orders[1..], orderId)
  }

  /** Every stored order is filed under its own submitter and pair. */
  ghost predicate WellFiled(idx: Index) {
    forall u, p, i | u in idx && p in idx[u] && 0 <= i < |idx[u][p]| ::
      idx[u][p][i].from == u && idx[u][p][i].pairId == p
  }

  // ---------------------------------------------------------------------------
  // The loop of `deleteUserOrder`
  // ---------------------------------------------------------------------------

  /** The scan-and-splice loop of `deleteUserOrder`: walk the orders, and at the
      first one whose id matches, splice it out and stop. */
  method SpliceFirst(orders: seq<Order>, orderId: u64) returns (kept: seq<Order>, found: bool)
    ensures found == HasId(orders, orderId)
    ensures kept == RemoveFirst(orders, orderId)
    ensures found ==> exists k | 0 <= k < |orders| :: orders[k].id == orderId &&
                        (forall j | 0 <= j < k :: orders[j].id != orderId) &&
                        kept == orders[..k] + orders[k + 1..]
    ensures !found ==> kept == orders
  {
    kept, found := orders, false;
    var i := 0;
    while i < |orders|
      invariant 0 <= i <= |orders|
      invariant forall j | 0 <= j < i :: orders[j].id != orderId
    {
      if orders[i].id == orderId {
        kept, found := orders[..i] + orders[i + 1..], true;
        RemoveFirstSplices(orders, orderId, i);
        return;
      }
      i := i + 1;
    }
    RemoveFirstAbsent(orders, orderId);
  }

  // ---------------------------------------------------------------------------
  // Properties of the removal
  // ---------------------------------------------------------------------------

  /** With no matching id, nothing is removed. */
  lemma {:induction false} RemoveFirstAbsent(orders: seq<Order>, orderId: u64)
    requires !HasId(orders, orderId)
    ensures RemoveFirst(orders, orderId) == orders
  {
    if orders != [] {
      assert !HasId(orders[1..], orderId) by {
        forall i | 0 <= i < |orders[1..]| ensures orders[1..][i].id != orderId {
          assert orders[1..][i] == orders[i + 1];
        }
      }
      RemoveFirstAbsent(orders[1..], orderId);
      assert orders == [orders[0]] + orders[1..];
    }
  }

  /** Removal splices out exactly the first matching order and keeps the others in
      their original order. */
  lemma {:induction false} RemoveFirstSplices(orders: seq<Order>, orderId: u64, k: nat)
    requires k < |orders| && orders[k].id == orderId
    requires forall j | 0 <= j < k :: orders[j].id != orderId
    ensures RemoveFirst(orders, orderId) == orders[..k] + orders[k + 1..]
  {
    if k > 0 {
      RemoveFirstSplices(orders[1..], orderId, k - 1);
      assert orders[1..][..k - 1] == orders[1..k];
      assert orders[1..][k..] == orders[k + 1..];
      assert orders[..k] == [orders[0]] + orders[1..k];
    }
  }

  /** Removal takes out one order carrying `orderId` when there is one, and keeps
      every other order with its multiplicity. */
  lemma {:induction false} RemoveFirstMultiset(orders: seq<Order>, orderId: u64)
    ensures HasId(orders, orderId) ==>
              |RemoveFirst(orders, orderId)| == |orders| - 1 &&
              multiset(RemoveFirst(orders, orderId)) + multiset{orders[FirstIndexOf(orders, orderId)]} == multiset(orders)
    ensures !HasId(orders, orderId) ==> RemoveFirst(orders, orderId) == orders
  {
    if HasId(orders, orderId) {
      var k := FirstIndexOf(orders, orderId);
      RemoveFirstSplices(orders, orderId, k);
      assert orders == orders[..k] + [orders[k]] + orders[k + 1..];
    } else {
      RemoveFirstAbsent(orders, orderId);
    }
  }

  /** Appending an order whose id is new and then removing that id restores the
      participant's sequence. */
  lemma {:induction false} RemoveAfterAppend(orders: seq<Order>, order: Order)
    requires !HasId(orders, order.id)
    ensures RemoveFirst(orders + [order], order.id) == orders
  {
    var s := orders + [order];
    assert s[|orders|].id == order.id;
    assert forall j | 0 <= j < |orders| :: s[j] == orders[j];
    RemoveFirstSplices(s, order.id, |orders|);
    assert s[..|orders|] == orders;
  }

  // ---------------------------------------------------------------------------
  // Properties of the index operations
  // ---------------------------------------------------------------------------

  /** `deleteUserOrder` (stored back) touches only the one participant/pair sequence. */
  lemma {:induction false} RemoveOrderView(idx: Index, pairId: i32, user: Address, orderId: u64, p: i32, u: Address)
    ensures View(RemoveOrder(idx, pairId, user, orderId), p, u) ==
            if u == user && p == pairId then RemoveFirst(View(idx, p, u), orderId) else View(idx, p, u)
  {
    if u == user && p == pairId && !HasId(View(idx, p, u), orderId) {
      RemoveFirstAbsent(View(idx, p, u), orderId);
    }
  }

  /** Submitting an order and then deleting it by its (fresh) id gives back the
      same view of the index. */
  lemma {:induction false} DeleteUndoesAppend(idx: Index, order: Order, p: i32, u: Address)
    requires !HasId(View(idx, order.pairId, order.from), order.id)
    ensures View(RemoveOrder(Append(idx, order), order.pairId, order.from, order.id), p, u) == View(idx, p, u)
  {
    RemoveOrderView(Append(idx, order), order.pairId, order.from, order.id, p, u);
    if u == order.from && p == order.pairId {
      RemoveAfterAppend(View(idx, p, u), order);
    }
  }

  lemma {:induction false} RemoveFirstSubset(orders: seq<Order>, orderId: u64)
    ensures forall x | x in RemoveFirst(orders, orderId) :: x in orders
  {
    RemoveFirstMultiset(orders, orderId);
    if HasId(orders, orderId) {
      forall x | x in RemoveFirst(orders, orderId) ensures x in orders {
        var y := orders[FirstIndexOf(orders, orderId)];
        assert x in multiset(RemoveFirst(orders, orderId));
        assert x in multiset(RemoveFirst(orders, orderId)) + multiset{y};
        assert x in multiset(orders);
      }
    }
  }

  lemma AppendKeepsWellFiled(idx: Index, order: Order)
    requires WellFiled(idx)
    ensures WellFiled(Append(idx, order))
  {
  }

  lemma {:induction false} RemoveOrderKeepsWellFiled(idx: Index, pairId: i32, user: Address, orderId: u64)
    requires WellFiled(idx)
    ensures WellFiled(RemoveOrder(idx, pairId, user, orderId))
  {
    var r: Index := RemoveOrder(idx, pairId, user, orderId);
    var orders := View(idx, pairId, user);
    RemoveFirstSubset(orders, orderId);
    forall u: Address, p: i32, i: int | u in r && p in r[u] && 0 <= i < |r[u][p]|
      ensures r[u][p][i].from == u && r[u][p][i].pairId == p
    {
      assert r[u][p] == View(r, p, u);
      RemoveOrderView(idx, pairId, user, orderId, p, u);
      if u == user && p == pairId && HasId(orders, orderId) {
        assert r[u][p][i] in orders;
      }
    }
  }

  /** A well-filed index shows each participant only their own orders for the pair. */
  lemma ViewIsFiled(idx: Index, pairId: i32, user: Address)
    requires WellFiled(idx)
    ensures forall o | o in View(idx, pairId, user) :: o.from == user && o.pairId == pairId
  {
  }

  /** Deleting an order with two orders stored: the source's stored slice loses the
      first order but shows the second one twice, where the intended result holds
      the second order once. */
  lemma DeleteAsWrittenDuplicatesLast(a: Order, b: Order)
    requires a.id == 1 && b.id == 2
    ensures StoredAfterDeleteAsWritten([a, b], 1) == [b, b]
    ensures RemoveFirst([a, b], 1) == [b]
  {
  }
}
