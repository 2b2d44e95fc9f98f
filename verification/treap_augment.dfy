/**
 * `augment`: fills in the cached subtree sums of a per-version treap. A node
 * whose sum is already computed is returned as it is; a node whose sum is the
 * sentinel gets the sum of its children's sums and its own counter. The
 * writes happen in place in the source; here the result is the tree with
 * those fields written, together with the returned sum.
 */
module TreapAugment {
  import opened Shape
  import opened TreapNode

  /**
   * `augment` (and `augment_parallel`, whose forked calls are run one after
   * the other here). On a memo, where every computed sum is correct, it
   * returns the tree's sum and leaves every node with its subtree's sum; it
   * writes nothing but `aug`, and nothing at all below a computed node.
   */
  function Augment(t: Tree<Item>): (r: (Tree<Item>, nat))
    ensures Erased(r.0) == Erased(t)
    ensures Memo(t) ==> FullyAug(r.0) && r.1 == Sum(t)
    ensures t.Node? && t.data.aug != AugUninitialized ==> r == (t, t.data.aug)
    ensures r.0.Node? ==> r.1 == r.0.data.aug
    ensures t == Nil ==> r == (Nil, 0)
  {
    match t
    case Nil => (Nil, 0)
    case Node(p, k, d, l, rt) =>
      if d.aug != AugUninitialized then (t, d.aug)
      else
        var (l', sl) := Augment(l);
        var (r', sr) := Augment(rt);
        var s := sl + d.val + sr;
        (Node(p, k, d.(aug := s), l', r'), s)
  }

  /** On a fully augmented tree `augment` returns the root's sum and writes nothing. */
  lemma FullyAugFixed(t: Tree<Item>)
    requires FullyAug(t)
    ensures Augment(t) == (t, Sum(t))
  {
    if t.Node? {
      SumIsSize(t);
    }
  }

  /** A second `augment` returns the same value and writes nothing. */
  lemma AugmentIdempotent(t: Tree<Item>)
    requires Memo(t)
    ensures Augment(Augment(t).0) == Augment(t)
  {
    FullyAugFixed(Augment(t).0);
  }

  /** Treap order does not depend on the cached sums. */
  lemma ErasedTreap(t: Tree<Item>, h: Key -> Prio)
    ensures Treap(Erased(t), h) <==> Treap(t, h)
  {
    ErasedKeeps(t);
    ErasedBst(t);
    ErasedHeap(t);
  }

  lemma {:induction false} ErasedBst(t: Tree<Item>)
    ensures Bst(Erased(t)) <==> Bst(t)
  {
    match t
    case Nil =>
    case Node(_, _, _, l, r) =>
      ErasedKeeps(l);
      ErasedKeeps(r);
      ErasedBst(l);
      ErasedBst(r);
  }

  lemma {:induction false} ErasedHeap(t: Tree<Item>)
    ensures Heap(Erased(t)) <==> Heap(t)
  {
    match t
    case Nil =>
    case Node(_, _, _, l, r) =>
      ErasedKeeps(l);
      ErasedKeeps(r);
      ErasedHeap(l);
      ErasedHeap(r);
  }

  /** `augment` keeps the treap, its keys and its counters. */
  lemma AugmentKeeps(t: Tree<Item>, h: Key -> Prio)
    ensures Treap(Augment(t).0, h) <==> Treap(t, h)
    ensures Content(Augment(t).0) == Content(t) && Keys(Augment(t).0) == Keys(t)
  {
    var a := Augment(t).0;
    ErasedTreap(a, h);
    ErasedTreap(t, h);
    ErasedKeeps(a);
    ErasedKeeps(t);
  }
}
