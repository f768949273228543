/** The order-book registry: a counter of registered pairs, one tree per signed pair
    id (the sign is the trade direction), and the per-participant order index. The
    source keeps these as three package-level variables; here they are the fields of
    one `Exchange` object. */
module OrderBooks {
  import opened Values
  import opened WeightedTree
  import opened UserOrders

  type Books = map<i32, Tree>

  /** Reading a book: an id never written reads as the empty (nil) tree. */
  function BookOf(books: Books, pairId: i32): Tree {
    if pairId in books then books[pairId] else Nil
  }

  /** Every book is a search tree with consistent heights. */
  ghost predicate BooksValid(books: Books) {
    forall id | id in books :: Bst(books[id]) && HeightsOk(books[id])
  }

  ghost predicate Registered(books: Books, id: i32)
    requires id > -TWO_31
  {
    id in books && -id in books
  }

  /** Both directions of every pair id from 1 to `count` have a book. */
  ghost predicate RegisteredUpTo(books: Books, count: int)
    requires count < TWO_31
  {
    forall id: i32 | 0 < id <= count :: Registered(books, id)
  }

  /** The two signed ids `createPair` writes for the new counter value, as the
      source computes them: `int32(paircount)` and `int32(-paircount)` on a `uint32`. */
  function SignedIds(count: u32): (ids: (i32, i32))
    ensures 0 < count < TWO_31 ==> ids.0 == count && ids.1 == -(count as int)
    ensures count == 0 ==> ids == (0, 0)
    ensures count == TWO_31 ==> ids == (-TWO_31, -TWO_31)
    ensures count > TWO_31 ==> ids == (count - TWO_32, TWO_32 - count)
  {
    (Int32Of(count), Int32Of(NegU32(count)))
  }

  /** The books after `createPair` has moved the counter to `count`: both signed ids
      map to an empty book, overwriting whatever was there, and nothing else changes. */
  function BooksAfterCreate(books: Books, count: u32): (r: Books)
    ensures BookOf(r, SignedIds(count).0) == Nil && BookOf(r, SignedIds(count).1) == Nil
    ensures forall id | id != SignedIds(count).0 && id != SignedIds(count).1 ::
              (id in r <==> id in books) && BookOf(r, id) == BookOf(books, id)
    ensures r.Keys == books.Keys + {SignedIds(count).0, SignedIds(count).1}
    ensures BooksValid(books) ==> BooksValid(r)
  {
    var ids := SignedIds(count);
    books[ids.0 := Nil][ids.1 := Nil]
  }

  /** Registering pair `count` after pairs 1 to `count - 1` leaves every pair from
      1 to `count` with a book in both directions. */
  lemma {:induction false} CreateRegisters(books: Books, count: u32)
    requires 0 < count < TWO_31 && RegisteredUpTo(books, count - 1)
    ensures RegisteredUpTo(BooksAfterCreate(books, count), count)
  {
    var r := BooksAfterCreate(books, count);
    forall id: i32 | 0 < id <= count ensures Registered(r, id) {
      if id < count {
        assert Registered(books, id);
      }
    }
  }

  /** The books after `addOrder`, with the new root stored back under the order's
      pair id; the other books are unchanged. */
  function BooksAfterAdd(books: Books, order: Order): (r: Books)
    ensures r.Keys == books.Keys + {order.pairId}
    ensures forall id | id != order.pairId :: BookOf(r, id) == BookOf(books, id)
    ensures Keys(BookOf(r, order.pairId)) == Keys(BookOf(books, order.pairId)) + {order.price}
    ensures Weight(BookOf(r, order.pairId)) == AddU256(Weight(BookOf(books, order.pairId)), order.amount)
  {
    books[order.pairId := Insert(BookOf(books, order.pairId), order.price, order.amount)]
  }

  /** The books after `addOrder` as written: a new root for an empty book is returned
      but never stored; a non-empty root is updated in place, so the stored tree does
      change, unless the insert never returns (`None`). */
  function BooksAfterAddAsWritten(books: Books, order: Order): Option<Books> {
    var book := BookOf(books, order.pairId);
    if book.Nil? then Some(books)
    else
      match InsertAsWritten(book, order.price, order.amount)
      case None => None
      case Some(t) => Some(books[order.pairId := t])
  }

  /** The source's `addOrder` loses the order on an empty book, never returns when the
      price differs from the root's key, and otherwise agrees with `BooksAfterAdd`. */
  lemma {:induction false} AddAsWrittenAgrees(books: Books, order: Order)
    ensures BooksAfterAddAsWritten(books, order) ==
            if BookOf(books, order.pairId).Nil? then Some(books)
            else if order.price == BookOf(books, order.pairId).key then Some(BooksAfterAdd(books, order))
            else None
  {
    InsertAsWrittenAgrees(BookOf(books, order.pairId), order.price, order.amount);
  }

  /** The first order of a freshly created book: the source leaves the book empty,
      where the stored-back version holds exactly the order's leaf. */
  lemma {:induction false} FirstOrderLostAsWritten(books: Books, order: Order)
    requires BookOf(books, order.pairId).Nil?
    ensures BooksAfterAddAsWritten(books, order) == Some(books)
    ensures BookOf(BooksAfterAdd(books, order), order.pairId) == Node(order.price, 1, Nil, Nil, order.amount)
  {
  }

  lemma {:induction false} AddKeepsBooksValid(books: Books, order: Order)
    requires BooksValid(books)
    ensures BooksValid(BooksAfterAdd(books, order))
  {
    var book := BookOf(books, order.pairId);
    InsertKeepsBst(book, order.price, order.amount);
    InsertKeepsHeights(book, order.price, order.amount);
  }

  /** Adding an order never unregisters a pair. */
  lemma {:induction false} AddKeepsRegistered(books: Books, order: Order, count: int)
    requires count < TWO_31 && RegisteredUpTo(books, count)
    ensures RegisteredUpTo(BooksAfterAdd(books, order), count)
  {
    var r := BooksAfterAdd(books, order);
    forall id: i32 | 0 < id <= count ensures Registered(r, id) {
      assert Registered(books, id);
    }
  }

  /** The package state: `paircount`, `orderBook` and `userOrders`. */
  class Exchange {
    var paircount: u32
    var orderBook: Books
    var userOrders: Index

    ghost predicate Valid()
      reads this
    {
      (paircount < TWO_31 ==> RegisteredUpTo(orderBook, paircount)) &&
      BooksValid(orderBook) &&
      WellFiled(userOrders)
    }

    constructor ()
      ensures Valid()
      ensures paircount == 0 && orderBook == map[] && userOrders == map[]
    {
      paircount, orderBook, userOrders := 0, map[], map[];
    }

    /** `createPair`: bump the counter and give both directions an empty book. */
    method CreatePair(pair: Pair) returns (count: u32)
      requires Valid()
      modifies this
      ensures Valid()
      ensures paircount == IncU32(old(paircount)) && count == paircount
      ensures orderBook == BooksAfterCreate(old(orderBook), count)
      ensures userOrders == old(userOrders)
    {
      if 0 < IncU32(paircount) < TWO_31 {
        CreateRegisters(orderBook, IncU32(paircount));
      }
      paircount := IncU32(paircount);
      var ids := SignedIds(paircount);
      orderBook := orderBook[ids.0 := Nil];
      orderBook := orderBook[ids.1 := Nil];
      count := paircount;
    }

    /** `addOrder`: insert the order into its book, storing the new root back, and
        append it to its submitter's sequence for the pair. */
    method AddOrder(order: Order) returns (root: Tree)
      requires Valid()
      modifies this
      ensures Valid()
      ensures old(BookOf(orderBook, order.pairId)).Nil? ==>
                root == Node(order.price, 1, Nil, Nil, order.amount)
      ensures root == BookOf(orderBook, order.pairId)
      ensures orderBook == BooksAfterAdd(old(orderBook), order)
      ensures userOrders == Append(old(userOrders), order)
      ensures paircount == old(paircount)
    {
      var node := BookOf(orderBook, order.pairId);
      if node.Nil? {
        node := Node(order.price, 1, Nil, Nil, order.amount);
      } else {
        node := Insert(node, order.price, order.amount);
      }
      AddKeepsBooksValid(orderBook, order);
      if paircount < TWO_31 {
        AddKeepsRegistered(orderBook, order, paircount);
      }
      AppendKeepsWellFiled(userOrders, order);
      orderBook := orderBook[order.pairId := node];
      userOrders := Append(userOrders, order);
      root := node;
    }

    /** `deleteUserOrder`, with the spliced sequence stored back. */
    method DeleteUserOrder(pairId: i32, user: Address, orderId: u64)
      requires Valid()
      modifies this
      ensures Valid()
      ensures userOrders == RemoveOrder(old(userOrders), pairId, user, orderId)
      ensures orderBook == old(orderBook) && paircount == old(paircount)
    {
      var orders := View(userOrders, pairId, user);
      var kept, found := SpliceFirst(orders, orderId);
      RemoveOrderKeepsWellFiled(userOrders, pairId, user, orderId);
      if found {
        userOrders := SetView(userOrders, user, pairId, kept);
      }
    }

    /** `viewOrders`: the participant's orders for one signed pair id, each filed
        under that participant and pair. */
    function ViewOrders(pairIds: i32, user: Address): (r: seq<Order>)
      reads this
      requires Valid()
      ensures forall o | o in r :: o.from == user && o.pairId == pairIds
    {
      ViewIsFiled(userOrders, pairIds, user);
      View(userOrders, pairIds, user)
    }
  }

  /** Register the first pair and rest two orders in its positive book: the book
      holds both prices and weighs 12 at the root, the negative book stays empty. */
  lemma TwoOrdersScenario(alice: Address)
    ensures var books := BooksAfterAdd(BooksAfterAdd(BooksAfterCreate(map[], 1),
                                                     Order(1, 1, 10, 5, alice)),
                                       Order(2, 1, 20, 7, alice));
            BookOf(books, 1) == Node(10, 2, Nil, Node(20, 1, Nil, Nil, 7), 12) &&
            BookOf(books, -1) == Nil
  {
  }

  /** Submit two orders for one participant and delete the first by its id: the
      participant's sequence holds the second order alone. */
  lemma TwoOrdersIndexScenario(alice: Address)
    ensures var first, second := Order(1, 1, 10, 5, alice), Order(2, 1, 20, 7, alice);
            View(RemoveOrder(Append(Append(map[], first), second), 1, alice, 1), 1, alice) == [second]
  {
    var first, second := Order(1, 1, 10, 5, alice), Order(2, 1, 20, 7, alice);
    var idx := Append(Append(map[], first), second);
    assert View(Append(map[], first), 1, alice) == [first];
    assert View(idx, 1, alice) == [first, second];
    assert [first, second][0].id == 1;
    RemoveOrderView(idx, 1, alice, 1, 1, alice);
  }
}
