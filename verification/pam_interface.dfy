/**
 * The versioned-counter interface over the per-key-history treap: `build`
 * makes the version-0 tree of an initial array, `inserted` and `deleted`
 * make the tree of the next snapshot from a published tree and a batch
 * stamped from version `ver` on, and `find` and `range_estimate` read a
 * tree as of a version. Every tree is augmented before it is returned.
 */
module PamInterface {
  import opened Shape
  import opened Weighted
  import opened PamNode
  import opened PamAugment
  import PamBuild
  import opened PamBuildVersioned
  import opened PamCopyMerge
  import opened PamCopySubtract
  import opened PamQuery

  /** A tree fit to publish: a treap under `h`, fully augmented, every entry stamped by version `a`. */
  ghost predicate Snapshot(t: Tree<PItem>, h: Key -> Prio, a: nat)
  {
    Treap(t, h) && FullyAug(t) && Every(t, Published(a))
  }

  /** `build(n, elems)`: the initial tree, augmented. */
  function Build(elems: seq<Key>, h: Key -> Prio): Tree<PItem>
  {
    Augment(PamBuild.Build(elems, h)).0
  }

  /** `inserted(t_old, ver, n, elems)`: the batch tree merged into the published one, augmented. */
  function Inserted(pub: Tree<PItem>, ver: nat, elems: seq<Key>, h: Key -> Prio): Tree<PItem>
  {
    Augment(CopyMerge(pub, BuildVersioned(ver, elems, h))).0
  }

  /** `inserted(t_old, ver, elem)`: a single-node batch merged into the published tree, augmented. */
  function InsertedOne(pub: Tree<PItem>, ver: nat, k: Key, h: Key -> Prio): Tree<PItem>
  {
    Augment(CopyMerge(pub, MakeHashedNode(ver, k, h))).0
  }

  /** `deleted(t_old, ver, n, elems)`: the batch tree subtracted from the published one, augmented. */
  function Deleted(pub: Tree<PItem>, ver: nat, elems: seq<Key>, h: Key -> Prio): Tree<PItem>
  {
    Augment(CopySubtract(pub, BuildVersioned(ver, elems, h))).0
  }

  /** `deleted(t_old, ver, elem)`: a single-node batch subtracted from the published tree, augmented. */
  function DeletedOne(pub: Tree<PItem>, ver: nat, k: Key, h: Key -> Prio): Tree<PItem>
  {
    Augment(CopySubtract(pub, MakeHashedNode(ver, k, h))).0
  }

  /** `inserted(t_old, ver, n, elems)` as written: over `copy_merge` as written. */
  function InsertedAsWritten(pub: Tree<PItem>, ver: nat, elems: seq<Key>, h: Key -> Prio): Tree<PItem>
  {
    Augment(CopyMergeAsWritten(pub, BuildVersioned(ver, elems, h))).0
  }

  /** `deleted(t_old, ver, n, elems)` as written: over `copy_subtract` as written. */
  function DeletedAsWritten(pub: Tree<PItem>, ver: nat, elems: seq<Key>, h: Key -> Prio): Tree<PItem>
  {
    Augment(CopySubtractAsWritten(pub, BuildVersioned(ver, elems, h))).0
  }

  /** Augmenting a memo whose entries are all stamped by `m` gives a snapshot at `m`. */
  lemma AugmentSnapshot(t: Tree<PItem>, h: Key -> Prio, m: nat)
    requires Treap(t, h) && Memo(t) && Every(t, Published(m))
    ensures Snapshot(Augment(t).0, h, m)
    ensures Keys(Augment(t).0) == Keys(t)
    ensures forall v :: Weight(Augment(t).0, At(v)) == Weight(t, At(v))
  {
    AugmentKeeps(t, h);
    AugmentMemo(t);
    PublishedEvery(t, m);
    PublishedEvery(Augment(t).0, m);
  }

  /**
   * The initial tree is a snapshot at version 0 in which, at every version,
   * each key counts its occurrences in the initial array.
   */
  lemma BuildCorrect(elems: seq<Key>, h: Key -> Prio)
    requires Injective(h)
    ensures Snapshot(Build(elems, h), h, 0)
    ensures forall v :: Weight(Build(elems, h), At(v)) == multiset(elems)
  {
    var b := PamBuild.Build(elems, h);
    PamBuild.BuildTreap(elems, h);
    PamBuild.InitialAt(b, 0);
    TransientMemo(b);
    PublishedEvery(b, 0);
    AugmentSnapshot(b, h, 0);
    forall v
      ensures Weight(Build(elems, h), At(v)) == multiset(elems)
    {
      PamBuild.InitialAt(b, v);
    }
  }

  /** The batch tree holds exactly the batch's keys. */
  lemma BatchKeys(ver: nat, elems: seq<Key>, h: Key -> Prio)
    ensures Keys(BuildVersioned(ver, elems, h)) == set k | k in elems
  {
    forall k
      ensures k in Keys(BuildVersioned(ver, elems, h)) <==> k in elems
    {
      BuildVersionedKeys(ver, elems, h, k);
    }
  }

  /** The inserted tree is a snapshot at the batch's last version `last`. */
  lemma MergedTree(pub: Tree<PItem>, h: Key -> Prio, a: nat, ver: nat, elems: seq<Key>, last: nat)
    requires Injective(h) && Snapshot(pub, h, a) && a < ver && last + 1 == ver + |elems|
    ensures Snapshot(Inserted(pub, ver, elems, h), h, last)
  {
    var det := BuildVersioned(ver, elems, h);
    var m := CopyMerge(pub, det);
    assert Treap(m, h) && Memo(m) && Every(m, Published(last)) by {
      BuildVersionedTreap(ver, elems, h);
      BuildVersionedFresh(ver, elems, ver + |elems|, h);
      EveryWeaker(det, Fresh(ver, ver + |elems|), Transient());
      CopyMergeTreap(pub, det, Carried, h);
      FullyAugMemo(pub);
      CopyMergeMemo(pub, det, Carried);
      CopyMergePublished(pub, det, a, ver, ver + |elems|, last);
    }
    AugmentSnapshot(m, h, last);
  }

  /** The merged tree holds the published keys and the batch's. */
  lemma MergedKeys(pub: Tree<PItem>, ver: nat, elems: seq<Key>, h: Key -> Prio)
    ensures Keys(CopyMerge(pub, BuildVersioned(ver, elems, h))) == Keys(pub) + set k | k in elems
  {
    BatchKeys(ver, elems, h);
    CopyMergeNodes(pub, BuildVersioned(ver, elems, h), Carried);
  }

  /**
   * Inserting a batch stamped from `ver` on into a snapshot at an earlier
   * version gives a snapshot at the batch's last version in which, from
   * the published version on, each counter is the published one plus the
   * batch's occurrences up to that version.
   */
  lemma InsertedCorrect(pub: Tree<PItem>, h: Key -> Prio, a: nat, ver: nat, elems: seq<Key>, last: nat)
    requires Injective(h) && Snapshot(pub, h, a) && a < ver && last + 1 == ver + |elems|
    ensures Snapshot(Inserted(pub, ver, elems, h), h, last)
    ensures Keys(Inserted(pub, ver, elems, h)) == Keys(pub) + set k | k in elems
    ensures forall v :: a <= v ==>
      Weight(Inserted(pub, ver, elems, h), At(v)) == Weight(pub, At(v)) + multiset(elems[..Clip(ver, |elems|, v)])
  {
    MergedTree(pub, h, a, ver, elems, last);
    var m := CopyMerge(pub, BuildVersioned(ver, elems, h));
    assert Keys(Augment(m).0) == Keys(pub) + set k | k in elems by {
      MergedKeys(pub, ver, elems, h);
      AugmentKeys(m);
    }
    forall v | a <= v
      ensures Weight(Augment(m).0, At(v)) == Weight(pub, At(v)) + multiset(elems[..Clip(ver, |elems|, v)])
    {
      MergedAt(pub, h, a, ver, elems, v);
      AugmentWeight(m, v);
    }
  }

  /** From the published version on, the merged counter is the published one plus the batch's so far. */
  lemma MergedAt(pub: Tree<PItem>, h: Key -> Prio, a: nat, ver: nat, elems: seq<Key>, v: nat)
    requires Every(pub, Published(a)) && a < ver && a <= v
    ensures Weight(CopyMerge(pub, BuildVersioned(ver, elems, h)), At(v)) == Weight(pub, At(v)) + multiset(elems[..Clip(ver, |elems|, v)])
  {
    BuildVersionedFresh(ver, elems, ver + |elems|, h);
    CopyMergeAt(pub, BuildVersioned(ver, elems, h), a, ver, ver + |elems|, v);
    BuildVersionedAt(ver, elems, h, v);
  }

  /** The deleted tree is a snapshot at the batch's last version `last`. */
  lemma SubtractedTree(pub: Tree<PItem>, h: Key -> Prio, a: nat, ver: nat, elems: seq<Key>, last: nat)
    requires Injective(h) && Snapshot(pub, h, a) && a < ver && last + 1 == ver + |elems|
    ensures Snapshot(Deleted(pub, ver, elems, h), h, last)
  {
    var det := BuildVersioned(ver, elems, h);
    var m := CopySubtract(pub, det);
    assert Treap(m, h) && Memo(m) && Every(m, Published(last)) by {
      BuildVersionedFresh(ver, elems, ver + |elems|, h);
      CopySubtractTreap(pub, det, h);
      FullyAugMemo(pub);
      CopySubtractMemo(pub, det);
      CopySubtractPublished(pub, det, a, ver, ver + |elems|, last);
    }
    AugmentSnapshot(m, h, last);
  }

  /**
   * Deleting a batch stamped from `ver` on from a snapshot at an earlier
   * version keeps every node and gives a snapshot at the batch's last
   * version in which, from the published version on, a key counts 0 once
   * the batch has deleted it and its published counter before that.
   */
  lemma DeletedCorrect(pub: Tree<PItem>, h: Key -> Prio, a: nat, ver: nat, elems: seq<Key>, last: nat)
    requires Injective(h) && Snapshot(pub, h, a) && a < ver && last + 1 == ver + |elems|
    ensures Snapshot(Deleted(pub, ver, elems, h), h, last)
    ensures Keys(Deleted(pub, ver, elems, h)) == Keys(pub)
    ensures forall v, k :: a <= v ==>
      Weight(Deleted(pub, ver, elems, h), At(v))[k] == if k in elems[..Clip(ver, |elems|, v)] then 0 else Weight(pub, At(v))[k]
  {
    SubtractedTree(pub, h, a, ver, elems, last);
    var m := CopySubtract(pub, BuildVersioned(ver, elems, h));
    assert Keys(Augment(m).0) == Keys(pub) by {
      CopySubtractNodes(pub, BuildVersioned(ver, elems, h));
      AugmentKeys(m);
    }
    forall v, k | a <= v
      ensures Weight(Augment(m).0, At(v))[k] == if k in elems[..Clip(ver, |elems|, v)] then 0 else Weight(pub, At(v))[k]
    {
      SubtractedAt(pub, h, a, ver, elems, v, k);
      AugmentWeight(m, v);
    }
  }

  /** From the published version on, a subtracted counter is 0 once the batch has reached its key. */
  lemma SubtractedAt(pub: Tree<PItem>, h: Key -> Prio, a: nat, ver: nat, elems: seq<Key>, v: nat, k: Key)
    requires Injective(h) && Treap(pub, h) && Every(pub, Published(a)) && a < ver && a <= v
    ensures Weight(CopySubtract(pub, BuildVersioned(ver, elems, h)), At(v))[k] == if k in elems[..Clip(ver, |elems|, v)] then 0 else Weight(pub, At(v))[k]
  {
    BuildVersionedTreap(ver, elems, h);
    BuildVersionedFresh(ver, elems, ver + |elems|, h);
    CopySubtractAt(pub, BuildVersioned(ver, elems, h), h, a, ver, ver + |elems|, v, k);
    BuildVersionedAt(ver, elems, h, v);
  }
  /** A one-element batch stamped at `ver` has its element from `ver` on. */
  lemma OneAt(ver: nat, k: Key, h: Key -> Prio)
    ensures BuildVersioned(ver, [k], h) == MakeHashedNode(ver, k, h)
    ensures forall v :: multiset([k][..Clip(ver, 1, v)]) == if ver <= v then multiset{k} else multiset{}
    ensures (set j | j in [k]) == {k}
  {
    assert [k][..1] == [k];
  }

  /** The single-key insert is the batch insert of a one-element batch. */
  lemma InsertedOneCorrect(pub: Tree<PItem>, h: Key -> Prio, a: nat, ver: nat, k: Key)
    requires Injective(h) && Snapshot(pub, h, a) && a < ver
    ensures Snapshot(InsertedOne(pub, ver, k, h), h, ver)
    ensures Keys(InsertedOne(pub, ver, k, h)) == Keys(pub) + {k}
    ensures forall v :: a <= v ==>
      Weight(InsertedOne(pub, ver, k, h), At(v)) == Weight(pub, At(v)) + if ver <= v then multiset{k} else multiset{}
  {
    OneAt(ver, k, h);
    InsertedCorrect(pub, h, a, ver, [k], ver);
  }

  /** The single-key delete is the batch delete of a one-element batch. */
  lemma DeletedOneCorrect(pub: Tree<PItem>, h: Key -> Prio, a: nat, ver: nat, k: Key)
    requires Injective(h) && Snapshot(pub, h, a) && a < ver
    ensures Snapshot(DeletedOne(pub, ver, k, h), h, ver)
    ensures Keys(DeletedOne(pub, ver, k, h)) == Keys(pub)
    ensures forall v, j :: a <= v ==>
      Weight(DeletedOne(pub, ver, k, h), At(v))[j] == if ver <= v && j == k then 0 else Weight(pub, At(v))[j]
  {
    OneAt(ver, k, h);
    DeletedCorrect(pub, h, a, ver, [k], ver);
    forall v, j | a <= v
      ensures j in [k][..Clip(ver, 1, v)] <==> ver <= v && j == k
    {
      assert j in [k][..Clip(ver, 1, v)] <==> j in multiset([k][..Clip(ver, 1, v)]);
    }
  }

  /**
   * From the batch's last version on, the inserted tree as written counts
   * the published counters plus the whole batch, as the corrected one does.
   */
  lemma InsertedAsWrittenLate(pub: Tree<PItem>, h: Key -> Prio, a: nat, ver: nat, elems: seq<Key>, v: nat)
    requires Every(pub, Published(a)) && a < ver && ver + |elems| <= v + 1
    ensures Weight(InsertedAsWritten(pub, ver, elems, h), At(v)) == Weight(pub, At(v)) + multiset(elems)
    ensures Weight(InsertedAsWritten(pub, ver, elems, h), At(v)) == Weight(Inserted(pub, ver, elems, h), At(v))
  {
    var det := BuildVersioned(ver, elems, h);
    BuildVersionedFresh(ver, elems, ver + |elems|, h);
    CopyMergeAsWrittenLate(pub, det, a, ver, ver + |elems|, v);
    BuildVersionedAt(ver, elems, h, v);
    assert elems[..Clip(ver, |elems|, v)] == elems;
    AugmentWeight(CopyMergeAsWritten(pub, det), v);
    MergedAt(pub, h, a, ver, elems, v);
    AugmentWeight(CopyMerge(pub, det), v);
  }

  /**
   * Before the batch's last version the inserted tree as written can be
   * wrong: key 5 published at version 0 and a batch inserting 7 then 5 at
   * versions 1 and 2 make key 5 count 0 as of version 1, where the
   * corrected tree counts 1.
   */
  lemma InsertedAsWrittenLoses(h: Key -> Prio)
    ensures Weight(InsertedAsWritten(MakeHashedNode(0, 5, h), 1, [7, 5], h), At(1))[5] == 0
    ensures Weight(Inserted(MakeHashedNode(0, 5, h), 1, [7, 5], h), At(1))[5] == 1
  {
    var det := BuildVersioned(1, [7, 5], h);
    CopyMergeAsWrittenLoses(h);
    CopyMergeCarries(h);
    AugmentWeight(CopyMergeAsWritten(MakeHashedNode(0, 5, h), det), 1);
    AugmentWeight(CopyMerge(MakeHashedNode(0, 5, h), det), 1);
  }

  /**
   * At every version from the published one on, the deleted tree as
   * written counts 0 for every key of the batch and the published counter
   * for every other key; from the batch's last version on this is what the
   * corrected tree counts.
   */
  lemma DeletedAsWrittenAt(pub: Tree<PItem>, h: Key -> Prio, a: nat, ver: nat, elems: seq<Key>, v: nat, k: Key)
    requires Injective(h) && Treap(pub, h) && Every(pub, Published(a)) && a < ver && a <= v
    ensures Weight(DeletedAsWritten(pub, ver, elems, h), At(v))[k] == if k in elems then 0 else Weight(pub, At(v))[k]
    ensures ver + |elems| <= v + 1 ==>
      Weight(DeletedAsWritten(pub, ver, elems, h), At(v))[k] == Weight(Deleted(pub, ver, elems, h), At(v))[k]
  {
    var det := BuildVersioned(ver, elems, h);
    BuildVersionedTreap(ver, elems, h);
    BuildVersionedKeys(ver, elems, h, k);
    CopySubtractAsWrittenAt(pub, det, h, a, v, k);
    AugmentWeight(CopySubtractAsWritten(pub, det), v);
    SubtractedAt(pub, h, a, ver, elems, v, k);
    AugmentWeight(CopySubtract(pub, det), v);
    if ver + |elems| <= v + 1 {
      assert elems[..Clip(ver, |elems|, v)] == elems;
    }
  }

  /**
   * Before the batch's last version the deleted tree as written can be
   * wrong: key 5 published at version 0 and a batch deleting 7 then 5 at
   * versions 1 and 2 make key 5 count 0 as of version 1, where the
   * corrected tree still counts 1.
   */
  lemma DeletedAsWrittenLoses(h: Key -> Prio)
    requires Injective(h)
    ensures Weight(DeletedAsWritten(MakeHashedNode(0, 5, h), 1, [7, 5], h), At(1))[5] == 0
    ensures Weight(Deleted(MakeHashedNode(0, 5, h), 1, [7, 5], h), At(1))[5] == 1
  {
    var det := BuildVersioned(1, [7, 5], h);
    CopySubtractAsWrittenLoses(h);
    AugmentWeight(CopySubtractAsWritten(MakeHashedNode(0, 5, h), det), 1);
    AugmentWeight(CopySubtract(MakeHashedNode(0, 5, h), det), 1);
  }

  /** An empty batch publishes the previous tree itself, whether inserted or deleted. */
  lemma EmptyBatch(pub: Tree<PItem>, ver: nat, h: Key -> Prio)
    requires FullyAug(pub)
    ensures Inserted(pub, ver, [], h) == pub && Deleted(pub, ver, [], h) == pub
  {
    assert BuildVersioned(ver, [], h) == Nil;
    assert CopyMerge(pub, Nil) == pub && CopySubtract(pub, Nil) == pub;
    FullyAugFixed(pub);
  }

  /**
   * A snapshot answers `find` and `range_estimate` exactly at every
   * version: `find` meets its search-tree and ordered-history condition,
   * and the range estimate is the range sum, which for a single key is
   * that key's counter.
   */
  lemma SnapshotReads(t: Tree<PItem>, h: Key -> Prio, a: nat, v: nat, lo: Key, hi: Key)
    requires Snapshot(t, h, a)
    ensures Bst(t) && Every(t, InOrder())
    ensures RangeQuery(t, v, lo, hi) == RangeSum(t, v, lo, hi)
    ensures RangeQuery(t, v, lo, lo) == Weight(t, At(v))[lo]
  {
    PublishedEvery(t, a);
    FullyAugMemo(t);
    PointRange(t, v, lo);
  }
}
