/**
 * Nodes of the per-version treap. Each node carries the version that created
 * it, the key's counter `val` and `aug`, the cached sum of the counters in its
 * subtree, where 0 means "not computed yet". Because a counter is never below
 * 1, a computed sum is never 0, so the sentinel is unambiguous.
 */
module TreapNode {
  import opened Shape

  /** A key's counter: the number of live copies of the key, at least 1 in any node. */
  type Count = x: nat | 1 <= x witness 1

  /** `aug_uninitialized`. */
  const AugUninitialized: nat := 0

  datatype Item = Item(ver: nat, val: Count, aug: nat)

  /** The keys of a tree counted with their counters. */
  function Content(t: Tree<Item>): multiset<Key>
  {
    match t
    case Nil => multiset{}
    case Node(_, k, d, l, r) => Content(l) + Copies(k, d.val) + Content(r)
  }

  /** The sum of the counters of a subtree: what `aug` caches. */
  function Sum(t: Tree<Item>): nat
  {
    match t
    case Nil => 0
    case Node(_, _, d, l, r) => Sum(l) + d.val + Sum(r)
  }

  /** Every node caches its subtree's sum. */
  ghost predicate FullyAug(t: Tree<Item>)
  {
    match t
    case Nil => true
    case Node(_, _, d, l, r) => d.aug == Sum(t) && FullyAug(l) && FullyAug(r)
  }

  /**
   * Every node either has not computed its sum yet, or heads a fully
   * augmented subtree: the shape path copying leaves behind when it copies
   * a path (fresh copies, `aug` 0) over shared augmented subtrees.
   */
  ghost predicate Memo(t: Tree<Item>)
  {
    match t
    case Nil => true
    case Node(_, _, d, l, r) =>
      if d.aug == AugUninitialized then Memo(l) && Memo(r) else FullyAug(t)
  }

  /** No node has computed its sum: a tree fresh from `build` or from copying. */
  ghost predicate Unaugmented(t: Tree<Item>)
  {
    match t
    case Nil => true
    case Node(_, _, d, l, r) => d.aug == AugUninitialized && Unaugmented(l) && Unaugmented(r)
  }

  lemma {:induction false} UnaugmentedMemo(t: Tree<Item>)
    requires Unaugmented(t)
    ensures Memo(t)
  {
    match t
    case Nil =>
    case Node(_, _, _, l, r) =>
      UnaugmentedMemo(l);
      UnaugmentedMemo(r);
  }

  /** The children of a memo are memos. */
  lemma MemoChildren(t: Tree<Item>)
    requires Memo(t) && t.Node?
    ensures Memo(t.left) && Memo(t.right)
  {
    if t.data.aug != AugUninitialized {
      FullyAugMemo(t.left);
      FullyAugMemo(t.right);
    }
  }

  /**
   * Persistence by path copying: every node of `r` either was created for
   * version `ver` or heads a subtree that `r` shares with `t` unchanged.
   */
  ghost predicate SharesWith(r: Tree<Item>, t: Tree<Item>, ver: nat)
  {
    forall s :: s in Subtrees(r) ==> s == Nil || s.data.ver == ver || s in Subtrees(t)
  }

  /** A node stamped `ver` over children that share with parts of `t` shares with `t`. */
  lemma SharesNode(p: Prio, k: Key, d: Item, a: Tree<Item>, b: Tree<Item>, t: Tree<Item>, ver: nat)
    requires d.ver == ver && SharesWith(a, t, ver) && SharesWith(b, t, ver)
    ensures SharesWith(Node(p, k, d, a, b), t, ver)
  {
  }

  /** Sharing with a subtree of `t` is sharing with `t`. */
  lemma SharesWider(r: Tree<Item>, s: Tree<Item>, t: Tree<Item>, ver: nat)
    requires SharesWith(r, s, ver) && Subtrees(s) <= Subtrees(t)
    ensures SharesWith(r, t, ver)
  {
  }

  /** A tree shares with itself. */
  lemma SharesSelf(t: Tree<Item>, ver: nat)
    ensures SharesWith(t, t, ver)
  {
  }

  /** The tree with every cached sum erased: everything `augment` does not write. */
  function Erased(t: Tree<Item>): Tree<Item>
  {
    match t
    case Nil => Nil
    case Node(p, k, d, l, r) => Node(p, k, d.(aug := AugUninitialized), Erased(l), Erased(r))
  }

  /** `make_node(ver, pry, key)`: a single fresh node holding one copy of `key`. */
  function MakeNode(ver: nat, pry: Prio, key: Key): (t: Tree<Item>)
    ensures t.Node? && t.pry == pry && t.key == key && t.left == Nil && t.right == Nil
    ensures t.data.ver == ver && t.data.aug == AugUninitialized
    ensures Content(t) == multiset{key} && Pairs(t) == {(key, pry)}
  {
    Node(pry, key, Item(ver, 1, AugUninitialized), Nil, Nil)
  }

  /** `make_node(ver, key)`: the priority is the key's hash. */
  function MakeHashedNode(ver: nat, key: Key, h: Key -> Prio): (t: Tree<Item>)
    ensures Treap(t, h) && Memo(t) && Keys(t) == {key}
    ensures Content(t) == multiset{key} && t.data.ver == ver
  {
    var t := MakeNode(ver, h(key), key);
    assert Keyed(t, h) && Bst(t) && Heap(t);
    t
  }

  /** The payload of a weak copy stamped `ver`: same counter, sum not computed. */
  function Stamp(ver: nat, d: Item): (e: Item)
    ensures e.val == d.val && e.ver == ver && e.aug == AugUninitialized
  {
    Item(ver, d.val, AugUninitialized)
  }

  /** `make_weak_copy(t)`: a childless copy of a node keeping its version. */
  function WeakCopy(t: Tree<Item>): (c: Tree<Item>)
    requires t.Node?
    ensures c.Node? && c.left == Nil && c.right == Nil && Pairs(c) == {(t.key, t.pry)}
    ensures c.data == Stamp(t.data.ver, t.data)
    ensures Content(c) == Copies(t.key, t.data.val)
  {
    Node(t.pry, t.key, Stamp(t.data.ver, t.data), Nil, Nil)
  }

  /** `make_weak_copy(t, ver)`: the same, stamped with `ver`. */
  function WeakCopyAt(t: Tree<Item>, ver: nat): (c: Tree<Item>)
    requires t.Node?
    ensures c.Node? && c.left == Nil && c.right == Nil && Pairs(c) == {(t.key, t.pry)}
    ensures c.data == Stamp(ver, t.data)
    ensures Content(c) == Copies(t.key, t.data.val)
  {
    Node(t.pry, t.key, Stamp(ver, t.data), Nil, Nil)
  }

  /** A computed sum is never the sentinel: every counter is at least 1. */
  lemma {:induction false} SumIsSize(t: Tree<Item>)
    ensures Sum(t) == |Content(t)|
    ensures t.Node? ==> Sum(t) >= Size(t) >= 1
  {
    match t
    case Nil =>
    case Node(_, k, d, l, r) =>
      SumIsSize(l);
      SumIsSize(r);
  }

  /** A key occurs in the content exactly when a node carries it. */
  lemma {:induction false} ContentKeys(t: Tree<Item>)
    ensures forall k :: k in Content(t) <==> k in Keys(t)
  {
    match t
    case Nil =>
    case Node(_, k, d, l, r) =>
      ContentKeys(l);
      ContentKeys(r);
  }

  /** In a search tree, a key's multiplicity is the counter of its node, and 0 when it has none. */
  lemma {:induction false} ContentAtRoot(t: Tree<Item>)
    requires Bst(t) && t.Node?
    ensures Content(t)[t.key] == t.data.val
  {
    ContentKeys(t.left);
    ContentKeys(t.right);
  }

  /** A full augmentation is also a memo. */
  lemma {:induction false} FullyAugMemo(t: Tree<Item>)
    requires FullyAug(t)
    ensures Memo(t)
  {
    match t
    case Nil =>
    case Node(_, _, d, l, r) =>
      SumIsSize(t);
  }

  /** Erasing keeps keys, priorities, counters and content. */
  lemma {:induction false} ErasedKeeps(t: Tree<Item>)
    ensures Pairs(Erased(t)) == Pairs(t) && Keys(Erased(t)) == Keys(t)
    ensures Content(Erased(t)) == Content(t) && Sum(Erased(t)) == Sum(t)
  {
    match t
    case Nil =>
    case Node(_, _, _, l, r) =>
      ErasedKeeps(l);
      ErasedKeeps(r);
  }

  /** Splitting with any payload map that keeps counters keeps the content. */
  lemma {:induction false} SplitContent(t: Tree<Item>, key: Key, f: Item -> Item)
    requires forall d :: f(d).val == d.val
    ensures Content(SplitWith(t, key, f).0) + Content(SplitWith(t, key, f).1) == Content(t)
  {
    match t
    case Nil =>
    case Node(p, k, d, l, r) =>
      if key < k {
        SplitContent(l, key, f);
      } else {
        SplitContent(r, key, f);
      }
  }

  /** Concatenating with any payload map that keeps counters keeps the content. */
  lemma {:induction false} ConcatContent(l: Tree<Item>, r: Tree<Item>, f: Item -> Item)
    requires forall d :: f(d).val == d.val
    ensures Content(ConcatWith(l, r, f)) == Content(l) + Content(r)
    decreases Size(l) + Size(r)
  {
    if l == Nil || r == Nil {
    } else if l.pry > r.pry {
      ConcatContent(l.right, r, f);
    } else {
      ConcatContent(l, r.left, f);
    }
  }
}
