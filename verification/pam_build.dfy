/**
 * Building the initial per-key-history treap: `split` and `merge` relink the
 * nodes of two transient treaps into one, adding the first value of equal
 * keys, and `build` merges the treaps of the two halves of the input array,
 * every node stamped with version 0. The relinking happens in place in the
 * source; here each call returns the relinked tree.
 */
module PamBuild {
  import opened Shape
  import opened Weighted
  import opened PamNode
  import opened PamAugment

  /** The weight of a node read from its first entry. */
  function First(): (w: PItem -> nat)
    ensures forall d :: w(d) == d.vals[0].val
  {
    (d: PItem) => d.vals[0].val
  }

  /** A node as `build` makes it: transient, with one entry, at version 0. */
  function Initial(): (ok: PItem -> bool)
    ensures forall d :: ok(d) == (d.vstat == Unset && |d.vals| == 1 && d.vals[0].ver == 0)
  {
    (d: PItem) => d.vstat == Unset && |d.vals| == 1 && d.vals[0].ver == 0
  }

  /**
   * `split`: the nodes with keys up to `key` and those above it, relinked,
   * every payload untouched.
   */
  function Split(t: Tree<PItem>, key: Key): (r: (Tree<PItem>, Tree<PItem>))
    ensures Pairs(r.0) + Pairs(r.1) == Pairs(t)
    ensures Payloads(r.0) <= Payloads(t) && Payloads(r.1) <= Payloads(t)
    ensures forall v :: Weight(r.0, At(v)) + Weight(r.1, At(v)) == Weight(t, At(v))
    ensures Weight(r.0, First()) + Weight(r.1, First()) == Weight(t, First())
    ensures Bst(t) ==> Bst(r.0) && Bst(r.1) && Parted(t, r.0, r.1, key)
    ensures Heap(t) ==> Heap(r.0) && Heap(r.1)
  {
    var r := SplitWith(t, key, Id);
    SplitNodes(t, key, Id);
    SplitPayloads(t, key);
    SplitKeeps(t, key, Id);
    assert forall v :: Weight(r.0, At(v)) + Weight(r.1, At(v)) == Weight(t, At(v)) by {
      forall v
        ensures Weight(r.0, At(v)) + Weight(r.1, At(v)) == Weight(t, At(v))
      {
        KeepsId(t, At(v));
        SplitWeight(t, key, Id, At(v));
      }
    }
    KeepsId(t, First());
    SplitWeight(t, key, Id, First());
    r
  }

  /** The equal-key case of `merge`: the first node's first value absorbs the second's. */
  function AddFirst(d0: PItem, d1: PItem): (d: PItem)
    ensures d.vals[0] == ValVer(d0.vals[0].val + d1.vals[0].val, d0.vals[0].ver)
    ensures d.vals[1..] == d0.vals[1..] && d.vstat == d0.vstat && d.aug == d0.aug
  {
    d0.(vals := [ValVer(d0.vals[0].val + d1.vals[0].val, d0.vals[0].ver)] + d0.vals[1..])
  }

  /**
   * `merge` of two transient treaps: every key of both, the first values of
   * equal keys added up; nodes stay as `build` makes them.
   */
  function MergeFirst(t0: Tree<PItem>, t1: Tree<PItem>): (t: Tree<PItem>)
    ensures Weight(t, First()) == Weight(t0, First()) + Weight(t1, First())
    ensures Keys(t) == Keys(t0) + Keys(t1)
    ensures Every(t0, Initial()) && Every(t1, Initial()) ==> Every(t, Initial())
  {
    MergeNodes(t0, t1, AddFirst);
    MergeWeight(t0, t1, AddFirst, First());
    assert Every(t0, Initial()) && Every(t1, Initial()) ==> Every(Merge(t0, t1, AddFirst), Initial()) by {
      if Every(t0, Initial()) && Every(t1, Initial()) {
        EveryPayload(t0, Initial());
        MergeEvery(t0, t1, AddFirst, Initial());
      }
    }
    Merge(t0, t1, AddFirst)
  }

  /**
   * `build`: one version-0 node per distinct key, whose first value counts
   * the key's occurrences in `elems`.
   */
  function Build(elems: seq<Key>, h: Key -> Prio): (t: Tree<PItem>)
    ensures Weight(t, First()) == multiset(elems)
    ensures Every(t, Initial())
    decreases |elems|
  {
    if |elems| == 0 then Nil
    else if |elems| == 1 then
      var t := MakeHashedNode(0, elems[0], h);
      assert Weight(t, First()) == Copies(elems[0], 1);
      t
    else
      var n := |elems|;
      assert elems == elems[..n / 2] + elems[n / 2..];
      MergeFirst(Build(elems[..n / 2], h), Build(elems[n / 2..], h))
  }

  /** Under a perfect hash, `build` gives a treap. */
  lemma {:induction false} BuildTreap(elems: seq<Key>, h: Key -> Prio)
    requires Injective(h)
    ensures Treap(Build(elems, h), h)
    decreases |elems|
  {
    var n := |elems|;
    if n > 1 {
      BuildTreap(elems[..n / 2], h);
      BuildTreap(elems[n / 2..], h);
      MergeTreap(Build(elems[..n / 2], h), Build(elems[n / 2..], h), AddFirst, h);
    }
  }

  /**
   * On nodes as `build` makes them the counter reads the first value at every
   * version, and every history is ordered and settled at version 0.
   */
  lemma {:induction false} InitialAt(t: Tree<PItem>, v: nat)
    requires Every(t, Initial())
    ensures Weight(t, At(v)) == Weight(t, First())
    ensures Every(t, InOrder()) && Every(t, SettledBy(0)) && Every(t, Transient())
  {
    match t
    case Nil =>
    case Node(_, _, d, l, r) =>
      InitialAt(l, v);
      InitialAt(r, v);
  }
}
