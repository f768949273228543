# Order-book engine: weighted price tree, pair registry, participant index

A Dafny model of the order-book engine in `core/vm/avltree/avl_tree.go`. It has three parts.

- **Weighted price tree** (module `WeightedTree`). A binary search tree keyed by price (`uint32`). Each node stores a height and a `uint256` weight. The weight is meant to be the total order amount in the node's subtree. `_insertNode` is meant to walk the search path for the order's price, adding the amount to every node on the way and recomputing the heights of the nodes it passed through. As written it recurses on the root instead (see "## Findings"). The tree is modelled as a datatype. The intended in-place updates of the nodes on the search path become the rebuilt path. `uint256.Int.Add` wraps modulo 2^256, and the model writes that wrap out (`Values.AddU256`).
- **Pair registry** (module `OrderBooks`, class `Exchange`). The counter `paircount` and the map `orderBook` from signed pair ids to tree roots. The sign of a pair id is the trade direction. `createPair` bumps the counter and maps `int32(paircount)` and `int32(-paircount)` to an empty book. Both conversions are modelled bit for bit, including the wrap of the `uint32` counter.
- **Participant order index** (module `UserOrders`). A map from participant to signed pair id to the participant's orders, in submission order. `addOrder` appends to it. `deleteUserOrder` scans for the first order with a given id and splices it out. `viewOrders` reads one sequence.

The three package variables (`paircount`, `orderBook`, `userOrders`) are the fields of one `Exchange` object. Its `Valid()` invariant has three parts:
- every book is a search tree with consistent heights;
- while the counter is below 2^31, both directions of every pair 1..`paircount` have a book;
- every indexed order is filed under its own submitter and pair.

A Go map read of a missing key gives the zero value. So a missing book reads as the empty tree (`BookOf`), and a missing sequence reads as empty (`View`).

Where the source does not do what it evidently intends, the model keeps both versions (see "## Findings"). Members whose names contain `AsWritten` follow the code. The corrected members are the ones the `Exchange` class uses. There are three such places:
- `_insertNode` makes its recursive calls on the node itself instead of on a child, so it never returns for a price other than the root's key. `Insert` descends into the child and, where the child is missing, creates a leaf built the way `addOrder` builds one (line 104).
- `addOrder` drops the new root of an empty book. `Exchange.AddOrder` stores it.
- `deleteUserOrder` never stores its splice back. `Exchange.DeleteUserOrder` stores it.

## Model

| member | source | states |
|---|---|---|
| `WeightedTree.Max` | core/vm/avltree/avl_tree.go:80-85 | the result is at least each argument and equals one of them |
| `WeightedTree.HeightIsDepth` | core/vm/avltree/avl_tree.go:73-78 | `height` is 0 for the missing tree and the stored height otherwise; where stored heights are consistent it equals the longest root-to-leaf path, computed from the shape alone |
| `WeightedTree.Insert` | core/vm/avltree/avl_tree.go:116-128 | insert always yields a node; its key set is the old one plus the price; the root weight becomes the old root weight plus the amount modulo 2^256 |
| `WeightedTree.InsertKeepsBst` | core/vm/avltree/avl_tree.go:119-122 | insert preserves search-tree ordering |
| `WeightedTree.InsertKeepsHeights` | core/vm/avltree/avl_tree.go:126 | if every node had height = 1 + max(child heights) before, it holds after; the tree grows by at most one level |
| `WeightedTree.InsertExistingKeepsShape` | core/vm/avltree/avl_tree.go:119-124 | inserting at a price the search finds (in a search tree: a price already in the tree, by `ContainsIffKey`) changes only weights: keys, links and heights are unchanged |
| `WeightedTree.InsertWeightOnPath` | core/vm/avltree/avl_tree.go:118-122 | each node on the search path from the root to the price gains exactly the amount (mod 2^256); the subtree under every node off the path is unchanged |
| `WeightedTree.InsertNewPriceIsLeaf` | core/vm/avltree/avl_tree.go:102-104 | a price not yet in the tree ends in a new leaf: key = price, height 1, no children, weight = amount |
| `WeightedTree.InsertOwnAmount` | core/vm/avltree/avl_tree.go:118-124 | without overflow, every node's own amount (weight minus children's weights) is unchanged except at the price, where it grows by the amount |
| `WeightedTree.InsertKeepsSound` | core/vm/avltree/avl_tree.go:118-126 | without overflow, insert keeps every own amount non-negative (weight conservation) |
| `WeightedTree.ContainsIffKey` | core/vm/avltree/avl_tree.go:119-124 | in a search tree, the search for a price ends on a node exactly when the price is a key |
| `WeightedTree.InsertAsWrittenAgrees` | core/vm/avltree/avl_tree.go:116-124 | the source's insert returns only when the price is the root's key, and then gives the same tree as `Insert`; for every other price it never returns, and on the missing tree line 118 dereferences nil |
| `WeightedTree.InsertAsWrittenRecursesOnRoot` | core/vm/avltree/avl_tree.go:118-122 | for a root keyed 10 with a child keyed 5, inserting at price 5 never returns as written, while `Insert` adds the amount to both nodes on the path |
| `WeightedTree.BalanceTree` | core/vm/avltree/avl_tree.go:167-170 | `balanceTree` keeps keys, root weight and height: it returns its argument |
| `WeightedTree.BalanceTreeLeavesChain` | core/vm/avltree/avl_tree.go:167-170 | three ascending inserts followed by `balanceTree` give a valid search tree with consistent heights that is not AVL-balanced |
| `WeightedTree.DeleteNodeGuards` | core/vm/avltree/avl_tree.go:173-182 | the two guards fire exactly when the tree is missing or the price is above the root's key, and then return the tree unchanged with 0 |
| `Values.AddU256` | core/vm/avltree/avl_tree.go:118 | `uint256.Int.Add` is the exact sum below 2^256 and the sum minus 2^256 above |
| `OrderBooks.SignedIds` | core/vm/avltree/avl_tree.go:91-96 | the ids written for counter n are +n and -n while 0 < n < 2^31; both are 0 at n = 0; both are -2^31 at n = 2^31; above that the signs swap (n - 2^32 and 2^32 - n) |
| `OrderBooks.BooksAfterCreate` | core/vm/avltree/avl_tree.go:93-95 | both signed ids of the new pair map to an empty book, overwriting any book there; every other entry is unchanged; the key set gains exactly those two ids |
| `OrderBooks.CreateRegisters` | core/vm/avltree/avl_tree.go:91-96 | after pairs 1..n-1 are registered, registering pair n (n < 2^31) leaves pairs 1..n registered in both directions |
| `OrderBooks.Exchange.constructor` | core/vm/avltree/avl_tree.go:37-39 | the package state starts with counter 0 and empty maps, and satisfies the invariant |
| `OrderBooks.Exchange.CreatePair` | core/vm/avltree/avl_tree.go:91-97 | the counter is incremented (wrapping at 2^32) and returned; `orderBook` becomes `BooksAfterCreate` of the old one; the index is unchanged; the invariant is kept |
| `OrderBooks.BooksAfterAdd` | core/vm/avltree/avl_tree.go:99-113 | the order's book gains its price as a key and its amount on the root weight (mod 2^256); every other book is unchanged |
| `OrderBooks.AddAsWrittenAgrees` | core/vm/avltree/avl_tree.go:99-113 | the source's `addOrder` leaves an empty book empty; on a non-empty book it never returns unless the price is the root's key, and then it stores the same books as `BooksAfterAdd` |
| `OrderBooks.FirstOrderLostAsWritten` | core/vm/avltree/avl_tree.go:100-104 | on an empty book the source's `orderBook` is unchanged, so the book stays empty; storing the root instead holds exactly the leaf price/height 1/amount |
| `OrderBooks.AddKeepsBooksValid` | core/vm/avltree/avl_tree.go:99-108 | adding an order keeps every book a search tree with consistent heights |
| `OrderBooks.AddKeepsRegistered` | core/vm/avltree/avl_tree.go:99-113 | adding an order never removes a registered book |
| `OrderBooks.Exchange.AddOrder` | core/vm/avltree/avl_tree.go:99-114 | on an empty book the result is the single node price/height 1/no children/amount; the result is the stored new root; `orderBook` becomes `BooksAfterAdd`; the index becomes `Append`; the counter is unchanged; the invariant is kept |
| `OrderBooks.Exchange.DeleteUserOrder` | core/vm/avltree/avl_tree.go:148-157 | the index becomes `RemoveOrder` of the old one; the books and the counter are unchanged; the invariant is kept |
| `OrderBooks.Exchange.ViewOrders` | core/vm/avltree/avl_tree.go:163-165 | every order returned was submitted by that participant for that signed pair id |
| `OrderBooks.TwoOrdersScenario` | core/vm/avltree/avl_tree.go:91-128 | register pair 1, add (price 10, amount 5) then (price 20, amount 7): book +1 is node 10 (height 2, weight 12) with right leaf 20 (weight 7), and book -1 stays empty |
| `OrderBooks.TwoOrdersIndexScenario` | core/vm/avltree/avl_tree.go:148-157 | after two orders of one participant are appended, deleting id 1 leaves that participant's sequence holding only the second order |
| `UserOrders.SetView` | core/vm/avltree/avl_tree.go:112 | writing one participant/pair sequence changes that sequence only |
| `UserOrders.Append` | core/vm/avltree/avl_tree.go:112 | the order goes at the end of its submitter's sequence for its pair; every other participant/pair sequence is unchanged |
| `UserOrders.SpliceFirst` | core/vm/avltree/avl_tree.go:150-156 | the scan reports whether some order has the id; if so, the result is the input with the first such order spliced out; if not, the input unchanged; both agree with `RemoveFirst` |
| `UserOrders.RemoveFirstAbsent` | core/vm/avltree/avl_tree.go:151-156 | with no matching id, nothing is removed |
| `UserOrders.RemoveFirstSplices` | core/vm/avltree/avl_tree.go:151-156 | removal drops exactly the first order with the id and keeps the others in their original order |
| `UserOrders.RemoveFirstMultiset` | core/vm/avltree/avl_tree.go:151-156 | with a match, removal shortens the sequence by one and removes one copy of the first matching order only; without one, the sequence is unchanged |
| `UserOrders.RemoveAfterAppend` | core/vm/avltree/avl_tree.go:148-157 | appending an order whose id is new and then removing that id restores the sequence |
| `UserOrders.RemoveOrderView` | core/vm/avltree/avl_tree.go:148-157 | deleting with the result stored back changes only the given participant/pair sequence, to `RemoveFirst` of it |
| `UserOrders.DeleteUndoesAppend` | core/vm/avltree/avl_tree.go:148-157 | `addOrder`'s append (line 112) followed by deleting the order's fresh id leaves every sequence of the index as it was |
| `UserOrders.StoredAfterDeleteAsWritten` | core/vm/avltree/avl_tree.go:150-153 | what the map holds after the source's splice on the aliased slice has the same length as before: with a match it is `RemoveFirst` of the sequence followed by a second copy of its last order; without one it is unchanged |
| `UserOrders.DeleteAsWrittenDuplicatesLast` | core/vm/avltree/avl_tree.go:150-153 | deleting id 1 from [order 1, order 2] leaves [order 2, order 2] in the source's map; the intended result is [order 2] |
| `UserOrders.AppendKeepsWellFiled` | core/vm/avltree/avl_tree.go:112 | the append keeps every order filed under its own submitter and pair |
| `UserOrders.RemoveOrderKeepsWellFiled` | core/vm/avltree/avl_tree.go:148-157 | deleting keeps every order filed under its own submitter and pair |
| `UserOrders.ViewIsFiled` | core/vm/avltree/avl_tree.go:163-165 | in a well-filed index, `viewOrders` returns only orders of that participant for that pair |

## Findings

| source | as written | input that shows it | evidently intended | confidence | as-written member | corrected member |
|---|---|---|---|---|---|---|
| core/vm/avltree/avl_tree.go:116-122 | lines 120 and 122 call `node._insertNode` on the same node instead of on `node.left` or `node.right`, so for any price other than the root's key the call recurses on the root forever, adding the amount to it again on each call, until Go stops with a stack overflow | a book whose root is keyed 10 with a child keyed 5; insert price 5, amount 2 | descend into the child on the price's side, and hang a new leaf (height 1, weight = amount) where the child is missing, as line 104 does for an empty book | not executed; high | `WeightedTree.InsertAsWritten`, `WeightedTree.InsertAsWrittenRecursesOnRoot` | `WeightedTree.Insert`, `WeightedTree.InsertNewPriceIsLeaf` |
| core/vm/avltree/avl_tree.go:99-113 | on an empty book `addOrder` builds a new root and returns it without storing it in `orderBook`, so the book stays empty | `createPair`, then `addOrder` of (pair 1, price 10, amount 5): book 1 is still empty | store the new root under the order's pair id | not executed; medium (a caller outside this file could store the returned root) | `OrderBooks.BooksAfterAddAsWritten`, `OrderBooks.FirstOrderLostAsWritten` | `OrderBooks.BooksAfterAdd`, `OrderBooks.Exchange.AddOrder` |
| core/vm/avltree/avl_tree.go:150-153 | `deleteUserOrder` splices a local copy of the slice header, never written back. The `append` reuses the shared backing array, so the map's slice keeps its length and sees the shifted elements | sequence [order id 1, order id 2]; delete id 1: the map holds [order 2, order 2] | store the spliced sequence, [order 2] | not executed; high | `UserOrders.StoredAfterDeleteAsWritten`, `UserOrders.DeleteAsWrittenDuplicatesLast` | `UserOrders.RemoveOrder`, `OrderBooks.Exchange.DeleteUserOrder` |

## Left out

- `initialize` and `initializeDatabase` (lines 41-67): they only open a sqlite file and create a table.
- `deleteOrder` (lines 135-146): its loop compares a shadowed order's id with itself, which is always true. It then calls the unfinished `_deleteNode`.
- `_deleteNode` beyond its two guards (lines 184-231). The leaf branch is empty, recursive results are discarded, and possibly-nil children are dereferenced. It always returns 0. No contract can be read from it. `DeleteNodeGuards` returns `None` for the inputs that reach this part.
- Rebalancing, best-price lookup and liquidity fill do not exist in this source file. `balanceTree` is the identity. The model does not claim the AVL balance condition (`Balanced`); `BalanceTreeLeavesChain` shows a reachable tree that violates it.
- Node heights are unbounded naturals. The source's `uint32` height would wrap only on a chain of 2^32 nodes.
- `InsertOwnAmount`: stated only when the root weight plus the amount stays below 2^256. Above that the path weights wrap (as `Insert` models) and own amounts are no longer meaningful.
- `InsertKeepsSound`: stated only without overflow, for the same reason.
- `InsertAsWritten`: `None` stands for the call that never returns. The model does not describe the root weight's repeated increase before the stack overflow, since Go's stack overflow ends the program and no state survives it.
- Allocation of the package maps: this file never allocates `orderBook`, `userOrders` or the per-participant inner maps, and Go panics on a write into a nil map. The model starts from empty maps, and a write creates any missing entry.
- The link between the index and the trees: `deleteUserOrder` removes the order from the index only, and the tree weight is not reduced. The model keeps that behaviour.
- `createPair` ignores its `Pair` argument, and so does `Exchange.CreatePair`. `addOrder` does not check that the pair id is registered, and neither does `Exchange.AddOrder`.
- Concurrency on the package variables, and the internals of `common.Address` (kept opaque: a number below 2^160) and of the `uint256` library (a natural number below 2^256).
