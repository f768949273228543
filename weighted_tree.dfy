/** The weight-augmented binary search tree of one order book: nodes keyed by price,
    each carrying the total order amount of its subtree. The tree is a value, and the
    intended insert, which would update the nodes on the search path in place, is
    modelled by rebuilding that path. */
module WeightedTree {
  import opened Values

  datatype Tree = Nil | Node(key: u32, height: nat, left: Tree, right: Tree, weight: u256)

  /** `height`: 0 for the missing tree, else the stored height. */
  function Height(t: Tree): nat {
    if t.Nil? then 0 else t.height
  }

  /** `max` on heights. */
  function Max(a: nat, b: nat): (m: nat)
    ensures m >= a && m >= b
    ensures m == a || m == b
  {
    if a > b then a else b
  }

  /** Subtree weight; the missing tree weighs nothing. */
  function Weight(t: Tree): u256 {
    if t.Nil? then 0 else t.weight
  }

  function Keys(t: Tree): set<u32> {
    if t.Nil? then {} else {t.key} + Keys(t.left) + Keys(t.right)
  }

  /** Search-tree ordering: smaller prices to the left, larger to the right. */
  ghost predicate Bst(t: Tree) {
    t.Node? ==>
      (forall k | k in Keys(t.left) :: k < t.key) &&
      (forall k | k in Keys(t.right) :: k > t.key) &&
      Bst(t.left) && Bst(t.right)
  }

  /** Every stored height is one more than the larger child height. */
  ghost predicate HeightsOk(t: Tree) {
    t.Node? ==>
      t.height == 1 + Max(Height(t.left), Height(t.right)) &&
      HeightsOk(t.left) && HeightsOk(t.right)
  }

  /** Length of the longest root-to-leaf path, computed from the shape alone. */
  function Depth(t: Tree): nat {
    if t.Nil? then 0 else 1 + Max(Depth(t.left), Depth(t.right))
  }

  /** The AVL balance condition. Nothing in the source establishes it. */
  ghost predicate Balanced(t: Tree) {
    t.Node? ==>
      -1 <= Height(t.left) - Height(t.right) <= 1 &&
      Balanced(t.left) && Balanced(t.right)
  }

  /** The amount resting at a node's own price: its weight minus its children's. */
  function OwnAmount(t: Tree): int
    requires t.Node?
  {
    t.weight - Weight(t.left) - Weight(t.right)
  }

  /** Weight conservation: no node's own amount is negative. */
  ghost predicate WeightsSound(t: Tree) {
    t.Node? ==> OwnAmount(t) >= 0 && WeightsSound(t.left) && WeightsSound(t.right)
  }

  /** Does the search for `price` end on a node? */
  function Contains(t: Tree, price: u32): bool {
    if t.Nil? then false
    else if price < t.key then Contains(t.left, price)
    else if price > t.key then Contains(t.right, price)
    else true
  }

  /** The subtree whose root has key `k`, found by search; `Nil` if there is none. */
  function Find(t: Tree, k: u32): Tree {
    if t.Nil? then Nil
    else if k < t.key then Find(t.left, k)
    else if k > t.key then Find(t.right, k)
    else t
  }

  /** Is the node keyed `k` on the search path for `price`? */
  ghost predicate OnPath(t: Tree, price: u32, k: u32) {
    t.Node? &&
    (k == t.key ||
     (price < t.key && OnPath(t.left, price, k)) ||
     (price > t.key && OnPath(t.right, price, k)))
  }

  /** The tree with every weight erased: keys, heights and links only. */
  function Unweighted(t: Tree): (u: Tree)
    ensures Height(u) == Height(t)
  {
    if t.Nil? then Nil else Node(t.key, t.height, Unweighted(t.left), Unweighted(t.right), 0)
  }

  /** `_insertNode` with the descent into the child (lines 120/122 recurse on `node`
      itself) and the missing-child case completed: every node on the search
      path gains `amount` (wrapping as `uint256.Int.Add` does) and has its height
      recomputed, except the node keyed `price`, which only gains weight; a search
      that falls off the tree ends in a new leaf built as `addOrder` builds one. */
  function Insert(t: Tree, price: u32, amount: u256): (r: Tree)
    ensures r.Node?
    ensures Keys(r) == Keys(t) + {price}
    ensures Weight(r) == AddU256(Weight(t), amount)
  {
    match t
    case Nil => Node(price, 1, Nil, Nil, amount)
    case Node(key, h, l, rt, w) =>
      var w' := AddU256(w, amount);
      if price < key then
        var l' := Insert(l, price, amount);
        Node(key, 1 + Max(Height(l'), Height(rt)), l', rt, w')
      else if price > key then
        var r' := Insert(rt, price, amount);
        Node(key, 1 + Max(Height(l), Height(r')), l, r', w')
      else
        Node(key, h, l, rt, w')
  }

  /** `_insertNode` as written. Both recursive calls are made on the receiver itself,
      not on one of its children, so for any price other than the root's key the call
      never returns: each nested call adds `amount` to the root again and Go stops with
      a stack overflow. `None` stands for that, and for a call on the missing tree,
      where the weight update dereferences nil. */
  function InsertAsWritten(t: Tree, price: u32, amount: u256): Option<Tree> {
    match t
    case Nil => None
    case Node(key, h, l, rt, w) =>
      if price == key then Some(Node(key, h, l, rt, AddU256(w, amount)))
      else None
  }

  /** `balanceTree`: a placeholder that returns the tree it was given. */
  function BalanceTree(root: Tree): (r: Tree)
    ensures Keys(r) == Keys(root) && Weight(r) == Weight(root) && Height(r) == Height(root)
  {
    root
  }

  /** The two guard clauses of `_deleteNode`: a missing tree, or a limit price above
      the root's key, remove nothing and leave the tree as it is. `None` stands for
      every other input, which reaches the unmodelled rest of the body. */
  function DeleteNodeGuards(root: Tree, key: u32, amount: u256): (r: Option<(Tree, u256)>)
    ensures r.Some? <==> (root.Nil? || key > root.key)
    ensures r.Some? ==> r.value.0 == root && r.value.1 == 0
  {
    if root.Nil? then Some((root, 0))
    else if key > root.key then Some((root, 0))
    else None
  }

  // ---------------------------------------------------------------------------
  // Search, keys and heights
  // ---------------------------------------------------------------------------

  lemma {:induction false} ContainsIffKey(t: Tree, price: u32)
    requires Bst(t)
    ensures Contains(t, price) <==> price in Keys(t)
  {
    if t.Node? {
      ContainsIffKey(t.left, price);
      ContainsIffKey(t.right, price);
    }
  }

  lemma {:induction false} FindKey(t: Tree, k: u32)
    requires Bst(t) && k in Keys(t)
    ensures Find(t, k).Node? && Find(t, k).key == k
  {
    if k < t.key {
      FindKey(t.left, k);
    } else if k > t.key {
      FindKey(t.right, k);
    }
  }

  lemma {:induction false} OnPathInKeys(t: Tree, price: u32, k: u32)
    requires OnPath(t, price, k)
    ensures k in Keys(t)
  {
    if k != t.key {
      if price < t.key && OnPath(t.left, price, k) {
        OnPathInKeys(t.left, price, k);
      } else {
        OnPathInKeys(t.right, price, k);
      }
    }
  }

  /** With consistent heights, `height` is the depth of the tree. */
  lemma {:induction false} HeightIsDepth(t: Tree)
    requires HeightsOk(t)
    ensures Height(t) == Depth(t)
  {
    if t.Node? {
      HeightIsDepth(t.left);
      HeightIsDepth(t.right);
    }
  }

  // ---------------------------------------------------------------------------
  // Insert
  // ---------------------------------------------------------------------------

  lemma {:induction false} InsertKeepsBst(t: Tree, price: u32, amount: u256)
    requires Bst(t)
    ensures Bst(Insert(t, price, amount))
  {
    if t.Node? {
      if price < t.key {
        InsertKeepsBst(t.left, price, amount);
      } else if price > t.key {
        InsertKeepsBst(t.right, price, amount);
      }
    }
  }

  /** Recomputing heights on the path keeps the height invariant, and the tree grows
      by at most one level. */
  lemma {:induction false} InsertKeepsHeights(t: Tree, price: u32, amount: u256)
    requires HeightsOk(t)
    ensures HeightsOk(Insert(t, price, amount))
    ensures Height(t) <= Height(Insert(t, price, amount)) <= Height(t) + 1
  {
    if t.Node? {
      if price < t.key {
        InsertKeepsHeights(t.left, price, amount);
      } else if price > t.key {
        InsertKeepsHeights(t.right, price, amount);
      }
    }
  }

  /** Inserting at a price the search finds changes weights only: same keys, same
      links, same heights. In a search tree that is every price already present
      (`ContainsIffKey`). */
  lemma {:induction false} InsertExistingKeepsShape(t: Tree, price: u32, amount: u256)
    requires HeightsOk(t) && Contains(t, price)
    ensures Unweighted(Insert(t, price, amount)) == Unweighted(t)
  {
    if price < t.key {
      InsertExistingKeepsShape(t.left, price, amount);
    } else if price > t.key {
      InsertExistingKeepsShape(t.right, price, amount);
    }
  }

  /** Each node on the search path gains exactly `amount` (modulo 2^256); the
      subtree under every node off the path is left untouched. */
  lemma {:induction false} InsertWeightOnPath(t: Tree, price: u32, amount: u256, k: u32)
    requires Bst(t) && k in Keys(t)
    ensures Find(Insert(t, price, amount), k).Node?
    ensures Weight(Find(Insert(t, price, amount), k)) ==
            if OnPath(t, price, k) then AddU256(Weight(Find(t, k)), amount)
            else Weight(Find(t, k))
    ensures !OnPath(t, price, k) ==> Find(Insert(t, price, amount), k) == Find(t, k)
  {
    var r := Insert(t, price, amount);
    if k < t.key {
      if price < t.key {
        InsertWeightOnPath(t.left, price, amount, k);
      } else if price > t.key && OnPath(t.right, price, k) {
        OnPathInKeys(t.right, price, k);
      }
      FindKey(t.left, k);
    } else if k > t.key {
      if price > t.key {
        InsertWeightOnPath(t.right, price, amount, k);
      } else if price < t.key && OnPath(t.left, price, k) {
        OnPathInKeys(t.left, price, k);
      }
      FindKey(t.right, k);
    }
  }

  /** A new price ends in a fresh leaf holding exactly `amount`. */
  lemma {:induction false} InsertNewPriceIsLeaf(t: Tree, price: u32, amount: u256)
    requires Bst(t) && price !in Keys(t)
    ensures Find(Insert(t, price, amount), price) == Node(price, 1, Nil, Nil, amount)
  {
    if t.Node? {
      if price < t.key {
        InsertNewPriceIsLeaf(t.left, price, amount);
      } else {
        InsertNewPriceIsLeaf(t.right, price, amount);
      }
    }
  }

  /** Without overflow, every node's own amount is unchanged except at `price`,
      where it grows by `amount`. */
  lemma {:induction false} InsertOwnAmount(t: Tree, price: u32, amount: u256, k: u32)
    requires Bst(t) && WeightsSound(t) && Weight(t) + amount < TWO_256
    requires k in Keys(t)
    ensures Find(t, k).Node? && Find(Insert(t, price, amount), k).Node?
    ensures OwnAmount(Find(Insert(t, price, amount), k)) ==
            OwnAmount(Find(t, k)) + (if k == price then amount else 0)
  {
    FindKey(t, k);
    InsertWeightOnPath(t, price, amount, k);
    if k < t.key && price < t.key {
      InsertOwnAmount(t.left, price, amount, k);
    } else if k > t.key && price > t.key {
      InsertOwnAmount(t.right, price, amount, k);
    }
  }

  /** Without overflow, weight conservation survives an insert. */
  lemma {:induction false} InsertKeepsSound(t: Tree, price: u32, amount: u256)
    requires WeightsSound(t) && Weight(t) + amount < TWO_256
    ensures WeightsSound(Insert(t, price, amount))
  {
    if t.Node? {
      if price < t.key {
        InsertKeepsSound(t.left, price, amount);
      } else if price > t.key {
        InsertKeepsSound(t.right, price, amount);
      }
    }
  }

  /** The source's insert returns only when the price is the root's key, and then
      agrees with `Insert`; for every other price it never returns. */
  lemma {:induction false} InsertAsWrittenAgrees(t: Tree, price: u32, amount: u256)
    ensures InsertAsWritten(t, price, amount) ==
            if t.Node? && price == t.key then Some(Insert(t, price, amount)) else None
  {
  }

  /** A book whose root is keyed 10 with a child keyed 5: inserting at price 5 never
      returns in the source, although the price is already in the tree, while the
      completed insert adds the amount on the path down to that child. */
  lemma InsertAsWrittenRecursesOnRoot()
    ensures InsertAsWritten(Node(10, 2, Node(5, 1, Nil, Nil, 3), Nil, 10), 5, 2) == None
    ensures Insert(Node(10, 2, Node(5, 1, Nil, Nil, 3), Nil, 10), 5, 2) ==
            Node(10, 2, Node(5, 1, Nil, Nil, 5), Nil, 12)
  {
  }

  /** `balanceTree` does not rebalance: three ascending inserts give a chain that is
      a valid search tree with consistent heights but not AVL-balanced. */
  lemma BalanceTreeLeavesChain()
    ensures var t := Insert(Insert(Insert(Nil, 1, 1), 2, 1), 3, 1);
            Bst(t) && HeightsOk(t) && !Balanced(BalanceTree(t))
  {
  }
}
