/**
 * `augment_parallel` for the per-key-history treap: a node whose watermark
 * is set is returned as it is; a transient node gets the sum of its
 * children's sums and its current value, and as watermark the greatest
 * version among its current entry and its children's watermarks. The writes
 * happen in place in the source; here the result is the tree with those
 * fields written, together with the returned sum.
 */
module PamAugment {
  import opened Shape
  import opened Weighted
  import opened PamNode

  /** Every node carries its subtree's watermark and sum of current values. */
  ghost predicate FullyAug(t: Tree<PItem>)
  {
    match t
    case Nil => true
    case Node(_, _, d, l, r) =>
      d.vstat == Stat(MaxLast(t)) && d.aug == SumLast(t) && FullyAug(l) && FullyAug(r)
  }

  /** Every node whose watermark is set has correct cached fields all the way down. */
  ghost predicate Memo(t: Tree<PItem>)
  {
    match t
    case Nil => true
    case Node(_, _, d, l, r) =>
      if d.vstat == Unset then Memo(l) && Memo(r) else FullyAug(t)
  }

  /** The node has not been augmented yet. */
  function Transient(): (ok: PItem -> bool)
    ensures forall d :: ok(d) == (d.vstat == Unset)
  {
    (d: PItem) => d.vstat == Unset
  }

  /** The tree with every watermark and sum reset, everything else kept. */
  function Erased(t: Tree<PItem>): Tree<PItem>
  {
    match t
    case Nil => Nil
    case Node(p, k, d, l, r) => Node(p, k, d.(vstat := Unset, aug := AugUninitialized), Erased(l), Erased(r))
  }

  /**
   * `augment_parallel` (its forked calls run one after the other here). On a
   * memo it leaves every node with its subtree's watermark and sum and
   * returns the sum of the current values; it writes nothing but the cached
   * fields, and nothing at all below a node whose watermark is set.
   */
  function Augment(t: Tree<PItem>): (r: (Tree<PItem>, nat))
    ensures r.0.Node? ==> r.0.data.vstat.Stat? && r.1 == r.0.data.aug
  {
    match t
    case Nil => (Nil, 0)
    case Node(p, k, d, l, rt) =>
      if d.vstat.Stat? then (t, d.aug)
      else
        var (l', sl) := Augment(l);
        var (r', sr) := Augment(rt);
        var s := sl + Last(d.vals).val + sr;
        var vl, vr := SubtreeVstat(l'), SubtreeVstat(r');
        var m := if vl < vr then vr else vl;
        var vs := if Last(d.vals).ver < m then m else Last(d.vals).ver;
        (Node(p, k, d.(vstat := Stat(vs), aug := s), l', r'), s)
  }

  /** `augment_parallel` writes nothing but the cached fields. */
  lemma {:induction false} AugmentErased(t: Tree<PItem>)
    ensures Erased(Augment(t).0) == Erased(t)
  {
    match t
    case Nil =>
    case Node(_, _, d, l, r) =>
      if d.vstat == Unset {
        AugmentErased(l);
        AugmentErased(r);
      }
  }

  /**
   * On a memo `augment_parallel` leaves every node with its subtree's
   * watermark and sum, and returns the sum of the current values.
   */
  lemma {:induction false} AugmentMemo(t: Tree<PItem>)
    requires Memo(t)
    ensures FullyAug(Augment(t).0) && Augment(t).1 == SumLast(t)
  {
    match t
    case Nil =>
    case Node(p, k, d, l, r) =>
      if d.vstat == Unset {
        AugmentMemo(l);
        AugmentMemo(r);
        var l', r' := Augment(l).0, Augment(r).0;
        AugmentErased(l);
        AugmentErased(r);
        ErasedKeeps(l);
        ErasedKeeps(l');
        ErasedKeeps(r);
        ErasedKeeps(r');
      }
  }


  /** Erasing the cached fields keeps the nodes. */
  lemma {:induction false} ErasedNodes(t: Tree<PItem>)
    ensures Keys(Erased(t)) == Keys(t) && Pairs(Erased(t)) == Pairs(t)
  {
    match t
    case Nil =>
    case Node(_, _, _, l, r) =>
      ErasedNodes(l);
      ErasedNodes(r);
  }

  /** Erasing the cached fields keeps the histories and the sums of current values. */
  lemma {:induction false} ErasedKeeps(t: Tree<PItem>)
    ensures MaxLast(Erased(t)) == MaxLast(t) && SumLast(Erased(t)) == SumLast(t)
    ensures forall v :: Weight(Erased(t), At(v)) == Weight(t, At(v))
    ensures Every(Erased(t), InOrder()) == Every(t, InOrder())
    ensures forall v :: Every(Erased(t), SettledBy(v)) == Every(t, SettledBy(v))
  {
    match t
    case Nil =>
    case Node(_, _, _, l, r) =>
      ErasedKeeps(l);
      ErasedKeeps(r);
  }

  /** Treap order does not depend on the cached fields. */
  lemma {:induction false} ErasedTreap(t: Tree<PItem>, h: Key -> Prio)
    ensures Treap(Erased(t), h) <==> Treap(t, h)
  {
    match t
    case Nil =>
    case Node(_, _, _, l, r) =>
      ErasedNodes(l);
      ErasedNodes(r);
      ErasedTreap(l, h);
      ErasedTreap(r, h);
  }

  /** `augment_parallel` keeps the treap, its keys, its histories and so its counters at every version. */
  lemma AugmentKeeps(t: Tree<PItem>, h: Key -> Prio)
    ensures Treap(Augment(t).0, h) <==> Treap(t, h)
    ensures Keys(Augment(t).0) == Keys(t)
    ensures forall v :: Weight(Augment(t).0, At(v)) == Weight(t, At(v))
    ensures Every(Augment(t).0, InOrder()) == Every(t, InOrder())
    ensures forall v :: Every(Augment(t).0, SettledBy(v)) == Every(t, SettledBy(v))
  {
    var a := Augment(t).0;
    AugmentErased(t);
    ErasedTreap(a, h);
    ErasedTreap(t, h);
    ErasedNodes(a);
    ErasedNodes(t);
    ErasedKeeps(a);
    ErasedKeeps(t);
  }

  /** `augment_parallel` keeps the counters at version `v`. */
  lemma AugmentWeight(t: Tree<PItem>, v: nat)
    ensures Weight(Augment(t).0, At(v)) == Weight(t, At(v))
  {
    AugmentErased(t);
    ErasedKeeps(Augment(t).0);
    ErasedKeeps(t);
  }

  /** `augment_parallel` keeps the keys. */
  lemma AugmentKeys(t: Tree<PItem>)
    ensures Keys(Augment(t).0) == Keys(t)
  {
    AugmentErased(t);
    ErasedNodes(Augment(t).0);
    ErasedNodes(t);
  }

  /** A fully augmented tree is a memo. */
  lemma FullyAugMemo(t: Tree<PItem>)
    requires FullyAug(t)
    ensures Memo(t)
  {
  }

  /** A tree with no watermark set is a memo. */
  lemma {:induction false} TransientMemo(t: Tree<PItem>)
    requires Every(t, Transient())
    ensures Memo(t)
  {
    match t
    case Nil =>
    case Node(_, _, _, l, r) =>
      TransientMemo(l);
      TransientMemo(r);
  }

  /** The children of a memo are memos. */
  lemma MemoChildren(t: Tree<PItem>)
    requires Memo(t) && t.Node?
    ensures Memo(t.left) && Memo(t.right)
  {
    if t.data.vstat.Stat? {
      FullyAugMemo(t.left);
      FullyAugMemo(t.right);
    }
  }

  /** On a fully augmented tree `augment_parallel` returns the root's sum and writes nothing. */
  lemma FullyAugFixed(t: Tree<PItem>)
    requires FullyAug(t)
    ensures Augment(t) == (t, SumLast(t))
  {
  }

  /** A second `augment_parallel` returns the same value and writes nothing. */
  lemma AugmentIdempotent(t: Tree<PItem>)
    requires Memo(t)
    ensures Augment(Augment(t).0) == Augment(t)
  {
    AugmentMemo(t);
    FullyAugFixed(Augment(t).0);
  }
}
