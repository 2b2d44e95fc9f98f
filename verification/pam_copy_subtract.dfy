/**
 * `copy_subtract`: the keys of a batch's transient treap deleted from the
 * published treap without touching the published nodes. A published node of
 * a deleted key disappears (its subtrees, with the deletions applied, are
 * joined by `copy_concat`); a published node with the higher priority is
 * weak-copied and the transient treap split under it; a transient root with
 * no published node is dropped and its subtrees joined. As written a deleted
 * key disappears at every version of the batch, also those before the
 * deletion; `CopySubtract` keeps the node and ends its history with a zero
 * entry at the version of the key's first deletion.
 */
module PamCopySubtract {
  import opened Shape
  import opened Weighted
  import opened PamNode
  import opened PamAugment
  import opened PamBuildVersioned

  /** `make_copy_if_need`: a transient node is reused, a published one weak-copied. */
  function CopyIfNeed(d: PItem): (e: PItem)
    ensures e.vstat == Unset && Last(e.vals) == Last(d.vals)
    ensures d.vstat == Unset ==> e == d
    ensures e == d || e == WeakData(d)
  {
    if d.vstat == Unset then d else WeakData(d)
  }

  /**
   * `copy_concat`: two treaps whose keys are ordered joined, published
   * roots on the spines weak-copied. The contract gives only the node
   * count; `CopyConcatMemo` states that cached sums stay valid, and the
   * `CopySubtract` lemmas state order, keys and counters of the result.
   */
  function CopyConcat(l: Tree<PItem>, r: Tree<PItem>): (t: Tree<PItem>)
    ensures Size(t) == Size(l) + Size(r)
  {
    ConcatWith(l, r, CopyIfNeed)
  }

  /** `copy_concat` of two memos is a memo: the nodes it rewrites are all transient. */
  lemma {:induction false} CopyConcatMemo(l: Tree<PItem>, r: Tree<PItem>)
    requires Memo(l) && Memo(r)
    ensures Memo(CopyConcat(l, r))
    decreases Size(l) + Size(r)
  {
    if l == Nil || r == Nil {
    } else if l.pry > r.pry {
      MemoChildren(l);
      CopyConcatMemo(l.right, r);
    } else {
      MemoChildren(r);
      CopyConcatMemo(l, r.left);
    }
  }

  /** A published payload read from `a` on keeps its counter through `make_copy_if_need`. */
  lemma {:induction false} PublishedCopyKeeps(t: Tree<PItem>, a: nat, v: nat)
    requires Every(t, Published(a)) && a <= v
    ensures Keeps(t, CopyIfNeed, At(v))
  {
    match t
    case Nil =>
    case Node(_, _, d, l, r) =>
      ValueAtSettled(d.vals, v);
      PublishedCopyKeeps(l, a, v);
      PublishedCopyKeeps(r, a, v);
  }

  /** On transient payloads `make_copy_if_need` copies nothing. */
  lemma {:induction false} TransientCopyKeeps(t: Tree<PItem>, w: PItem -> nat)
    requires Every(t, Transient())
    ensures Keeps(t, CopyIfNeed, w)
  {
    match t
    case Nil =>
    case Node(_, _, d, l, r) =>
      TransientCopyKeeps(l, w);
      TransientCopyKeeps(r, w);
  }

  /** `copy_subtract` as written: a deleted key loses its node. */
  function CopySubtractAsWritten(pub: Tree<PItem>, det: Tree<PItem>): Tree<PItem>
    decreases Size(pub) + Size(det)
  {
    if pub == Nil then Nil
    else if det == Nil then pub
    else if pub.key == det.key then
      CopyConcat(CopySubtractAsWritten(pub.left, det.left), CopySubtractAsWritten(pub.right, det.right))
    else if pub.pry > det.pry then
      var (dl, dr) := SplitWith(det, pub.key, Id);
      Node(pub.pry, pub.key, WeakData(pub.data), CopySubtractAsWritten(pub.left, dl), CopySubtractAsWritten(pub.right, dr))
    else
      CopySubtractAsWritten(pub, CopyConcat(det.left, det.right))
  }

  /**
   * The node of a deleted key: the published current entry, then the counter
   * 0 from the version of the key's first deletion in the batch.
   */
  function Ended(d0: PItem, d1: PItem): (d: PItem)
    ensures d.vals == [Last(d0.vals), ValVer(0, d1.vals[0].ver)] && d.vstat == Unset
  {
    PItem([Last(d0.vals), ValVer(0, d1.vals[0].ver)], Unset, AugUninitialized)
  }

  /** `copy_subtract` with the deleted key's node kept and its history ended at the deletion. */
  function CopySubtract(pub: Tree<PItem>, det: Tree<PItem>): Tree<PItem>
    decreases Size(pub) + Size(det)
  {
    if pub == Nil then Nil
    else if det == Nil then pub
    else if pub.key == det.key then
      Node(pub.pry, pub.key, Ended(pub.data, det.data), CopySubtract(pub.left, det.left), CopySubtract(pub.right, det.right))
    else if pub.pry > det.pry then
      var (dl, dr) := SplitWith(det, pub.key, Id);
      Node(pub.pry, pub.key, WeakData(pub.data), CopySubtract(pub.left, dl), CopySubtract(pub.right, dr))
    else
      CopySubtract(pub, CopyConcat(det.left, det.right))
  }

  /** As written, the result holds only nodes of the published tree. */
  lemma {:induction false} CopySubtractAsWrittenSub(pub: Tree<PItem>, det: Tree<PItem>)
    ensures Keys(CopySubtractAsWritten(pub, det)) <= Keys(pub)
    ensures Pairs(CopySubtractAsWritten(pub, det)) <= Pairs(pub)
    decreases Size(pub) + Size(det)
  {
    if pub == Nil || det == Nil {
    } else if pub.key == det.key {
      var x, y := CopySubtractAsWritten(pub.left, det.left), CopySubtractAsWritten(pub.right, det.right);
      CopySubtractAsWrittenSub(pub.left, det.left);
      CopySubtractAsWrittenSub(pub.right, det.right);
      ConcatNodes(x, y, CopyIfNeed);
    } else if pub.pry > det.pry {
      var (dl, dr) := SplitWith(det, pub.key, Id);
      CopySubtractAsWrittenSub(pub.left, dl);
      CopySubtractAsWrittenSub(pub.right, dr);
    } else {
      CopySubtractAsWrittenSub(pub, CopyConcat(det.left, det.right));
    }
  }

  /** The kept-node version holds exactly the nodes of the published tree. */
  lemma {:induction false} CopySubtractNodes(pub: Tree<PItem>, det: Tree<PItem>)
    ensures Keys(CopySubtract(pub, det)) == Keys(pub)
    ensures Pairs(CopySubtract(pub, det)) == Pairs(pub)
    decreases Size(pub) + Size(det)
  {
    if pub == Nil || det == Nil {
    } else if pub.key == det.key {
      CopySubtractNodes(pub.left, det.left);
      CopySubtractNodes(pub.right, det.right);
    } else if pub.pry > det.pry {
      var (dl, dr) := SplitWith(det, pub.key, Id);
      CopySubtractNodes(pub.left, dl);
      CopySubtractNodes(pub.right, dr);
    } else {
      CopySubtractNodes(pub, CopyConcat(det.left, det.right));
    }
  }

  /** The result of `copy_subtract` as written on a treap is a treap. */
  lemma {:induction false} CopySubtractAsWrittenTreap(pub: Tree<PItem>, det: Tree<PItem>, h: Key -> Prio)
    requires Treap(pub, h) && Injective(h)
    ensures Treap(CopySubtractAsWritten(pub, det), h)
    decreases Size(pub) + Size(det)
  {
    if pub == Nil || det == Nil {
    } else if pub.key == det.key {
      var x, y := CopySubtractAsWritten(pub.left, det.left), CopySubtractAsWritten(pub.right, det.right);
      CopySubtractAsWrittenTreap(pub.left, det.left, h);
      CopySubtractAsWrittenTreap(pub.right, det.right, h);
      CopySubtractAsWrittenSub(pub.left, det.left);
      CopySubtractAsWrittenSub(pub.right, det.right);
      assert Before(x, y) by {
        assert forall k :: k in Keys(pub.left) ==> k < pub.key;
        assert forall k :: k in Keys(pub.right) ==> pub.key < k;
      }
      ConcatTreap(x, y, CopyIfNeed, h);
    } else if pub.pry > det.pry {
      var (dl, dr) := SplitWith(det, pub.key, Id);
      CopySubtractAsWrittenTreap(pub.left, dl, h);
      CopySubtractAsWrittenTreap(pub.right, dr, h);
      CopySubtractAsWrittenSub(pub.left, dl);
      CopySubtractAsWrittenSub(pub.right, dr);
      KeptRootTreap(pub, CopySubtractAsWritten(pub.left, dl), CopySubtractAsWritten(pub.right, dr), WeakData(pub.data), h);
    } else {
      CopySubtractAsWrittenTreap(pub, CopyConcat(det.left, det.right), h);
    }
  }

  /** A published root over subtrees that hold only nodes of its own subtrees is a treap. */
  lemma KeptRootTreap(pub: Tree<PItem>, x: Tree<PItem>, y: Tree<PItem>, e: PItem, h: Key -> Prio)
    requires Treap(pub, h) && pub.Node? && Treap(x, h) && Treap(y, h)
    requires Keys(x) <= Keys(pub.left) && Pairs(x) <= Pairs(pub.left)
    requires Keys(y) <= Keys(pub.right) && Pairs(y) <= Pairs(pub.right)
    ensures Treap(Node(pub.pry, pub.key, e, x, y), h)
  {
    assert (pub.key, pub.pry) in Pairs(pub);
    assert forall q :: q in Pairs(pub.left) ==> q.1 < pub.pry;
    assert forall q :: q in Pairs(pub.right) ==> q.1 < pub.pry;
    NodeTreap(pub.pry, pub.key, e, x, y, h);
  }

  /** The result of the kept-node version on a treap is a treap: it has the published tree's shape. */
  lemma {:induction false} CopySubtractTreap(pub: Tree<PItem>, det: Tree<PItem>, h: Key -> Prio)
    requires Treap(pub, h)
    ensures Treap(CopySubtract(pub, det), h)
    decreases Size(pub) + Size(det)
  {
    if pub == Nil || det == Nil {
    } else if pub.key == det.key {
      CopySubtractTreap(pub.left, det.left, h);
      CopySubtractTreap(pub.right, det.right, h);
      CopySubtractNodes(pub.left, det.left);
      CopySubtractNodes(pub.right, det.right);
      KeptRootTreap(pub, CopySubtract(pub.left, det.left), CopySubtract(pub.right, det.right), Ended(pub.data, det.data), h);
    } else if pub.pry > det.pry {
      var (dl, dr) := SplitWith(det, pub.key, Id);
      CopySubtractTreap(pub.left, dl, h);
      CopySubtractTreap(pub.right, dr, h);
      CopySubtractNodes(pub.left, dl);
      CopySubtractNodes(pub.right, dr);
      KeptRootTreap(pub, CopySubtract(pub.left, dl), CopySubtract(pub.right, dr), WeakData(pub.data), h);
    } else {
      CopySubtractTreap(pub, CopyConcat(det.left, det.right), h);
    }
  }

  /** On a memo and a transient treap, both versions give a memo. */
  lemma {:induction false} CopySubtractMemo(pub: Tree<PItem>, det: Tree<PItem>)
    requires Memo(pub)
    ensures Memo(CopySubtractAsWritten(pub, det)) && Memo(CopySubtract(pub, det))
    decreases Size(pub) + Size(det)
  {
    if pub == Nil || det == Nil {
    } else if pub.key == det.key {
      MemoChildren(pub);
      CopySubtractMemo(pub.left, det.left);
      CopySubtractMemo(pub.right, det.right);
      CopyConcatMemo(CopySubtractAsWritten(pub.left, det.left), CopySubtractAsWritten(pub.right, det.right));
    } else if pub.pry > det.pry {
      var (dl, dr) := SplitWith(det, pub.key, Id);
      MemoChildren(pub);
      CopySubtractMemo(pub.left, dl);
      CopySubtractMemo(pub.right, dr);
    } else {
      CopySubtractMemo(pub, CopyConcat(det.left, det.right));
    }
  }

  /** As written, every node stays published by `a`: each is a node or a weak copy of one of `pub`. */
  lemma {:induction false} CopySubtractAsWrittenPublished(pub: Tree<PItem>, det: Tree<PItem>, a: nat)
    requires Every(pub, Published(a))
    ensures Every(CopySubtractAsWritten(pub, det), Published(a))
    decreases Size(pub) + Size(det)
  {
    if pub == Nil || det == Nil {
    } else if pub.key == det.key {
      CopySubtractAsWrittenPublished(pub.left, det.left, a);
      CopySubtractAsWrittenPublished(pub.right, det.right, a);
      ConcatEvery(CopySubtractAsWritten(pub.left, det.left), CopySubtractAsWritten(pub.right, det.right), CopyIfNeed, Published(a));
    } else if pub.pry > det.pry {
      var (dl, dr) := SplitWith(det, pub.key, Id);
      CopySubtractAsWrittenPublished(pub.left, dl, a);
      CopySubtractAsWrittenPublished(pub.right, dr, a);
    } else {
      CopySubtractAsWrittenPublished(pub, CopyConcat(det.left, det.right), a);
    }
  }

  /** A history ended by a batch stamped in `[lo, hi)` is published by `m`. */
  lemma EndedPublished(d0: PItem, d1: PItem, a: nat, lo: nat, hi: nat, m: nat)
    requires Published(a)(d0) && Fresh(lo, hi)(d1) && a < lo && hi <= m + 1
    ensures Published(m)(Ended(d0, d1))
  {
    assert lo <= d1.vals[0].ver < hi;
  }

  /** The deletions of a batch stamped in `[lo, hi)` keep a tree published by an earlier `a` published by `m`. */
  lemma {:induction false} CopySubtractPublished(pub: Tree<PItem>, det: Tree<PItem>, a: nat, lo: nat, hi: nat, m: nat)
    requires Every(pub, Published(a)) && Every(det, Fresh(lo, hi))
    requires a < lo && a <= m && hi <= m + 1
    ensures Every(CopySubtract(pub, det), Published(m))
    decreases Size(pub) + Size(det)
  {
    if pub == Nil {
    } else if det == Nil {
      EveryWeaker(pub, Published(a), Published(m));
    } else if pub.key == det.key {
      CopySubtractPublished(pub.left, det.left, a, lo, hi, m);
      CopySubtractPublished(pub.right, det.right, a, lo, hi, m);
      EndedPublished(pub.data, det.data, a, lo, hi, m);
      assert CopySubtract(pub, det) == Node(pub.pry, pub.key, Ended(pub.data, det.data), CopySubtract(pub.left, det.left), CopySubtract(pub.right, det.right));
    } else if pub.pry > det.pry {
      var (dl, dr) := SplitWith(det, pub.key, Id);
      SplitEvery(det, pub.key, Id, Fresh(lo, hi));
      CopySubtractPublished(pub.left, dl, a, lo, hi, m);
      CopySubtractPublished(pub.right, dr, a, lo, hi, m);
      assert Published(m)(WeakData(pub.data));
      assert CopySubtract(pub, det) == Node(pub.pry, pub.key, WeakData(pub.data), CopySubtract(pub.left, dl), CopySubtract(pub.right, dr));
    } else {
      ConcatEvery(det.left, det.right, CopyIfNeed, Fresh(lo, hi));
      CopySubtractPublished(pub, CopyConcat(det.left, det.right), a, lo, hi, m);
    }
  }

  /**
   * As written, at every version from `a` on, a key of the batch counts 0
   * and every other key keeps its published counter.
   */
  lemma {:induction false} CopySubtractAsWrittenAt(pub: Tree<PItem>, det: Tree<PItem>, h: Key -> Prio, a: nat, v: nat, k: Key)
    requires Treap(pub, h) && Treap(det, h) && Injective(h) && Every(pub, Published(a)) && a <= v
    ensures Weight(CopySubtractAsWritten(pub, det), At(v))[k] == if k in Keys(det) then 0 else Weight(pub, At(v))[k]
    decreases Size(pub) + Size(det), 1
  {
    if pub == Nil || det == Nil {
    } else if pub.key == det.key {
      AsWrittenAtSame(pub, det, h, a, v, k);
    } else if pub.pry > det.pry {
      AsWrittenAtOver(pub, det, h, a, v, k);
    } else {
      AsWrittenAtDrop(pub, det, h, a, v, k);
    }
  }

  lemma {:induction false} AsWrittenAtSame(pub: Tree<PItem>, det: Tree<PItem>, h: Key -> Prio, a: nat, v: nat, k: Key)
    requires Treap(pub, h) && Treap(det, h) && Injective(h) && Every(pub, Published(a)) && a <= v
    requires pub.Node? && det.Node? && pub.key == det.key
    ensures Weight(CopySubtractAsWritten(pub, det), At(v))[k] == if k in Keys(det) then 0 else Weight(pub, At(v))[k]
    decreases Size(pub) + Size(det), 0
  {
    AsWrittenJoined(pub, det, a, v);
    TreapChildren(pub, h);
    TreapChildren(det, h);
    CopySubtractAsWrittenAt(pub.left, det.left, h, a, v, k);
    CopySubtractAsWrittenAt(pub.right, det.right, h, a, v, k);
    var K := pub.key;
    WeightAtKey(pub, At(v), k);
    WeightAtKey(det, At(v), k);
  }

  /** Where the deleted key's node was, the weights of the two joined results add up. */
  lemma AsWrittenJoined(pub: Tree<PItem>, det: Tree<PItem>, a: nat, v: nat)
    requires Every(pub, Published(a)) && a <= v && pub.Node? && det.Node? && pub.key == det.key
    ensures Weight(CopySubtractAsWritten(pub, det), At(v))
         == Weight(CopySubtractAsWritten(pub.left, det.left), At(v)) + Weight(CopySubtractAsWritten(pub.right, det.right), At(v))
  {
    var x, y := CopySubtractAsWritten(pub.left, det.left), CopySubtractAsWritten(pub.right, det.right);
    assert CopySubtractAsWritten(pub, det) == CopyConcat(x, y);
    CopySubtractAsWrittenPublished(pub.left, det.left, a);
    CopySubtractAsWrittenPublished(pub.right, det.right, a);
    PublishedCopyKeeps(x, a, v);
    PublishedCopyKeeps(y, a, v);
    ConcatWeight(x, y, CopyIfNeed, At(v));
  }

  lemma {:induction false} AsWrittenAtOver(pub: Tree<PItem>, det: Tree<PItem>, h: Key -> Prio, a: nat, v: nat, k: Key)
    requires Treap(pub, h) && Treap(det, h) && Injective(h) && Every(pub, Published(a)) && a <= v
    requires pub.Node? && det.Node? && pub.key != det.key && pub.pry > det.pry
    ensures Weight(CopySubtractAsWritten(pub, det), At(v))[k] == if k in Keys(det) then 0 else Weight(pub, At(v))[k]
    decreases Size(pub) + Size(det), 0
  {
    var K := pub.key;
    var (dl, dr) := SplitWith(det, K, Id);
    var x, y := CopySubtractAsWritten(pub.left, dl), CopySubtractAsWritten(pub.right, dr);
    assert CopySubtractAsWritten(pub, det) == Node(pub.pry, K, WeakData(pub.data), x, y);
    SplitUnder(pub, det, h, At(v));
    TreapChildren(pub, h);
    CopySubtractAsWrittenAt(pub.left, dl, h, a, v, k);
    CopySubtractAsWrittenAt(pub.right, dr, h, a, v, k);
    AsWrittenOverJoin(pub, det, dl, dr, x, y, v, k);
  }

  /** Below a kept published root, each side deletes the batch keys split to it. */
  lemma AsWrittenOverJoin(pub: Tree<PItem>, det: Tree<PItem>, dl: Tree<PItem>, dr: Tree<PItem>, x: Tree<PItem>, y: Tree<PItem>, v: nat, k: Key)
    requires Bst(pub) && pub.Node? && Last(pub.data.vals).ver <= v
    requires pub.key !in Keys(det) && Parted(det, dl, dr, pub.key)
    requires Weight(x, At(v))[k] == if k in Keys(dl) then 0 else Weight(pub.left, At(v))[k]
    requires Weight(y, At(v))[k] == if k in Keys(dr) then 0 else Weight(pub.right, At(v))[k]
    ensures Weight(Node(pub.pry, pub.key, WeakData(pub.data), x, y), At(v))[k] == if k in Keys(det) then 0 else Weight(pub, At(v))[k]
  {
    ValueAtSettled(pub.data.vals, v);
    ValueAtSettled(WeakData(pub.data).vals, v);
    JoinKeys(pub, det, dl, dr, x, y, WeakData(pub.data), At(v), k);
  }

  /**
   * A published root above the transient root is not deleted: its key is
   * not in the transient treap, which splits under it into two treaps.
   */
  lemma SplitUnder(pub: Tree<PItem>, det: Tree<PItem>, h: Key -> Prio, w: PItem -> nat)
    requires Treap(pub, h) && Treap(det, h) && Injective(h)
    requires pub.Node? && det.Node? && pub.pry > det.pry
    ensures pub.key !in Keys(det)
    ensures Treap(SplitWith(det, pub.key, Id).0, h) && Treap(SplitWith(det, pub.key, Id).1, h)
    ensures Parted(det, SplitWith(det, pub.key, Id).0, SplitWith(det, pub.key, Id).1, pub.key)
    ensures Weight(SplitWith(det, pub.key, Id).0, w) + Weight(SplitWith(det, pub.key, Id).1, w) == Weight(det, w)
  {
    SplitKeeps(det, pub.key, Id);
    assert (pub.key, pub.pry) in Pairs(pub);
    Outside(det, pub.key, pub.pry, h);
    KeepsId(det, w);
    SplitWeight(det, pub.key, Id, w);
  }

  lemma {:induction false} AsWrittenAtDrop(pub: Tree<PItem>, det: Tree<PItem>, h: Key -> Prio, a: nat, v: nat, k: Key)
    requires Treap(pub, h) && Treap(det, h) && Injective(h) && Every(pub, Published(a)) && a <= v
    requires pub.Node? && det.Node? && pub.key != det.key && !(pub.pry > det.pry)
    ensures Weight(CopySubtractAsWritten(pub, det), At(v))[k] == if k in Keys(det) then 0 else Weight(pub, At(v))[k]
    decreases Size(pub) + Size(det), 0
  {
    var rest := CopyConcat(det.left, det.right);
    assert CopySubtractAsWritten(pub, det) == CopySubtractAsWritten(pub, rest);
    DroppedRoot(pub, det, h);
    RestTreap(det, h);
    CopySubtractAsWrittenAt(pub, rest, h, a, v, k);
    if k == det.key {
      WeightAbsent(pub, At(v), k);
    }
  }

  /** A transient root above the published root has no published node. */
  lemma DroppedRoot(pub: Tree<PItem>, det: Tree<PItem>, h: Key -> Prio)
    requires Treap(pub, h) && Treap(det, h) && Injective(h)
    requires pub.Node? && det.Node? && pub.key != det.key && !(pub.pry > det.pry)
    ensures det.key !in Keys(pub)
  {
    assert (det.key, det.pry) in Pairs(det);
    AbsentBelow(pub, h, det.key);
  }

  /** The subtrees of a transient root, joined, form a treap of the root's other keys. */
  lemma RestTreap(det: Tree<PItem>, h: Key -> Prio)
    requires Treap(det, h) && Injective(h) && det.Node?
    ensures Treap(CopyConcat(det.left, det.right), h)
    ensures det.key !in Keys(CopyConcat(det.left, det.right))
    ensures forall k :: k != det.key ==> (k in Keys(det) <==> k in Keys(CopyConcat(det.left, det.right)))
  {
    TreapChildren(det, h);
    assert Before(det.left, det.right);
    ConcatTreap(det.left, det.right, CopyIfNeed, h);
    ConcatNodes(det.left, det.right, CopyIfNeed);
  }

  /** The ended history reads 0 from the deletion on and the published counter before it. */
  lemma EndedAt(d0: PItem, d1: PItem, a: nat, lo: nat, hi: nat, v: nat)
    requires Published(a)(d0) && Fresh(lo, hi)(d1) && a < lo && a <= v
    ensures ValueAt(Ended(d0, d1).vals, v) == if ValueAt(d1.vals, v) > 0 then 0 else ValueAt(d0.vals, v)
  {
    ValueAtPositive(d1.vals, v);
    ValueAtSettled(d0.vals, v);
    var e := Ended(d0, d1).vals;
    if v < d1.vals[0].ver {
      assert e[..1] == [Last(d0.vals)];
    }
  }

  /**
   * With the node kept, at every version from `a` on, a key counts 0 once
   * the batch has deleted it and its published counter before that.
   */
  lemma {:induction false} CopySubtractAt(pub: Tree<PItem>, det: Tree<PItem>, h: Key -> Prio, a: nat, lo: nat, hi: nat, v: nat, k: Key)
    requires Treap(pub, h) && Treap(det, h) && Injective(h)
    requires Every(pub, Published(a)) && Every(det, Fresh(lo, hi)) && a < lo && a <= v
    ensures Weight(CopySubtract(pub, det), At(v))[k] == if Weight(det, At(v))[k] > 0 then 0 else Weight(pub, At(v))[k]
    decreases Size(pub) + Size(det), 1
  {
    if pub == Nil || det == Nil {
    } else if pub.key == det.key {
      KeptAtSame(pub, det, h, a, lo, hi, v, k);
    } else if pub.pry > det.pry {
      KeptAtOver(pub, det, h, a, lo, hi, v, k);
    } else {
      KeptAtDrop(pub, det, h, a, lo, hi, v, k);
    }
  }

  lemma {:induction false} KeptAtSame(pub: Tree<PItem>, det: Tree<PItem>, h: Key -> Prio, a: nat, lo: nat, hi: nat, v: nat, k: Key)
    requires Treap(pub, h) && Treap(det, h) && Injective(h)
    requires Every(pub, Published(a)) && Every(det, Fresh(lo, hi)) && a < lo && a <= v
    requires pub.Node? && det.Node? && pub.key == det.key
    ensures Weight(CopySubtract(pub, det), At(v))[k] == if Weight(det, At(v))[k] > 0 then 0 else Weight(pub, At(v))[k]
    decreases Size(pub) + Size(det), 0
  {
    var K := pub.key;
    var x, y := CopySubtract(pub.left, det.left), CopySubtract(pub.right, det.right);
    assert CopySubtract(pub, det) == Node(pub.pry, K, Ended(pub.data, det.data), x, y);
    TreapChildren(pub, h);
    TreapChildren(det, h);
    CopySubtractAt(pub.left, det.left, h, a, lo, hi, v, k);
    CopySubtractAt(pub.right, det.right, h, a, lo, hi, v, k);
    EndedAt(pub.data, det.data, a, lo, hi, v);
    SidesAt(pub, At(v), k);
    SidesAt(det, At(v), k);
    SameCore(pub, det, x, y, Ended(pub.data, det.data), At(v), k);
  }

  /**
   * The arithmetic of a root deleted in place: each side and the root
   * itself count 0 where the batch counts the key.
   */
  lemma SameCore<P>(pub: Tree<P>, det: Tree<P>, x: Tree<P>, y: Tree<P>, e: P, w: P -> nat, k: Key)
    requires pub.Node? && det.Node? && pub.key == det.key
    requires k <= pub.key ==> Weight(pub.right, w)[k] == 0 && Weight(det.right, w)[k] == 0
    requires pub.key <= k ==> Weight(pub.left, w)[k] == 0 && Weight(det.left, w)[k] == 0
    requires Weight(x, w)[k] == if Weight(det.left, w)[k] > 0 then 0 else Weight(pub.left, w)[k]
    requires Weight(y, w)[k] == if Weight(det.right, w)[k] > 0 then 0 else Weight(pub.right, w)[k]
    requires w(e) == if w(det.data) > 0 then 0 else w(pub.data)
    ensures Weight(Node(pub.pry, pub.key, e, x, y), w)[k] == if Weight(det, w)[k] > 0 then 0 else Weight(pub, w)[k]
  {
    assert Weight(Node(pub.pry, pub.key, e, x, y), w)[k] == Weight(x, w)[k] + Copies(pub.key, w(e))[k] + Weight(y, w)[k];
    assert Weight(det, w)[k] == Weight(det.left, w)[k] + Copies(det.key, w(det.data))[k] + Weight(det.right, w)[k];
  }

  lemma {:induction false} KeptAtOver(pub: Tree<PItem>, det: Tree<PItem>, h: Key -> Prio, a: nat, lo: nat, hi: nat, v: nat, k: Key)
    requires Treap(pub, h) && Treap(det, h) && Injective(h)
    requires Every(pub, Published(a)) && Every(det, Fresh(lo, hi)) && a < lo && a <= v
    requires pub.Node? && det.Node? && pub.key != det.key && pub.pry > det.pry
    ensures Weight(CopySubtract(pub, det), At(v))[k] == if Weight(det, At(v))[k] > 0 then 0 else Weight(pub, At(v))[k]
    decreases Size(pub) + Size(det), 0
  {
    var K := pub.key;
    var (dl, dr) := SplitWith(det, K, Id);
    var x, y := CopySubtract(pub.left, dl), CopySubtract(pub.right, dr);
    assert CopySubtract(pub, det) == Node(pub.pry, K, WeakData(pub.data), x, y);
    SplitUnder(pub, det, h, At(v));
    SplitEvery(det, K, Id, Fresh(lo, hi));
    TreapChildren(pub, h);
    CopySubtractAt(pub.left, dl, h, a, lo, hi, v, k);
    CopySubtractAt(pub.right, dr, h, a, lo, hi, v, k);
    KeptOverJoin(pub, det, dl, dr, x, y, v, k);
  }

  /** Below a kept published root, each side clears the keys the batch split to it has reached. */
  lemma KeptOverJoin(pub: Tree<PItem>, det: Tree<PItem>, dl: Tree<PItem>, dr: Tree<PItem>, x: Tree<PItem>, y: Tree<PItem>, v: nat, k: Key)
    requires Bst(pub) && pub.Node? && Last(pub.data.vals).ver <= v
    requires pub.key !in Keys(det) && Parted(det, dl, dr, pub.key)
    requires Weight(dl, At(v)) + Weight(dr, At(v)) == Weight(det, At(v))
    requires Weight(x, At(v))[k] == if Weight(dl, At(v))[k] > 0 then 0 else Weight(pub.left, At(v))[k]
    requires Weight(y, At(v))[k] == if Weight(dr, At(v))[k] > 0 then 0 else Weight(pub.right, At(v))[k]
    ensures Weight(Node(pub.pry, pub.key, WeakData(pub.data), x, y), At(v))[k] == if Weight(det, At(v))[k] > 0 then 0 else Weight(pub, At(v))[k]
  {
    ValueAtSettled(pub.data.vals, v);
    ValueAtSettled(WeakData(pub.data).vals, v);
    JoinWeights(pub, det, dl, dr, x, y, WeakData(pub.data), At(v), k);
  }

  /**
   * Rebuilding a root over two sides, each of which drops from its old
   * subtree the keys of its part of `det`, drops from the whole tree the
   * keys of `det`.
   */
  lemma JoinKeys<P>(pub: Tree<P>, det: Tree<P>, dl: Tree<P>, dr: Tree<P>, x: Tree<P>, y: Tree<P>, d: P, w: P -> nat, k: Key)
    requires Bst(pub) && pub.Node? && w(d) == w(pub.data)
    requires pub.key !in Keys(det) && Parted(det, dl, dr, pub.key)
    requires Weight(x, w)[k] == if k in Keys(dl) then 0 else Weight(pub.left, w)[k]
    requires Weight(y, w)[k] == if k in Keys(dr) then 0 else Weight(pub.right, w)[k]
    ensures Weight(Node(pub.pry, pub.key, d, x, y), w)[k] == if k in Keys(det) then 0 else Weight(pub, w)[k]
  {
    var inDet, inL, inR := k in Keys(det), k in Keys(dl), k in Keys(dr);
    assert inDet == (inL || inR);
    assert k <= pub.key ==> !inR;
    assert pub.key <= k ==> !inL;
    SidesAt(pub, w, k);
    JoinCore(pub, x, y, d, w, k, inDet, inL, inR);
  }

  /** As `JoinKeys`, with the keys weighed: a side drops the keys its part of `det` counts. */
  lemma JoinWeights<P>(pub: Tree<P>, det: Tree<P>, dl: Tree<P>, dr: Tree<P>, x: Tree<P>, y: Tree<P>, d: P, w: P -> nat, k: Key)
    requires Bst(pub) && pub.Node? && w(d) == w(pub.data)
    requires pub.key !in Keys(det) && Parted(det, dl, dr, pub.key)
    requires Weight(dl, w) + Weight(dr, w) == Weight(det, w)
    requires Weight(x, w)[k] == if Weight(dl, w)[k] > 0 then 0 else Weight(pub.left, w)[k]
    requires Weight(y, w)[k] == if Weight(dr, w)[k] > 0 then 0 else Weight(pub.right, w)[k]
    ensures Weight(Node(pub.pry, pub.key, d, x, y), w)[k] == if Weight(det, w)[k] > 0 then 0 else Weight(pub, w)[k]
  {
    assert Weight(det, w)[k] == Weight(dl, w)[k] + Weight(dr, w)[k];
    if k <= pub.key {
      assert k !in Keys(dr);
      WeightAbsent(dr, w, k);
    }
    if pub.key <= k {
      assert k !in Keys(dl);
      WeightAbsent(dl, w, k);
    }
    SidesAt(pub, w, k);
    JoinCore(pub, x, y, d, w, k, Weight(det, w)[k] > 0, Weight(dl, w)[k] > 0, Weight(dr, w)[k] > 0);
  }

  /** Where a key of a search tree lies relative to its root. */
  lemma SidesAt<P>(t: Tree<P>, w: P -> nat, k: Key)
    requires Bst(t) && t.Node?
    ensures k <= t.key ==> Weight(t.right, w)[k] == 0
    ensures t.key <= k ==> Weight(t.left, w)[k] == 0
  {
    if k <= t.key {
      assert k !in Keys(t.right);
      WeightAbsent(t.right, w, k);
    }
    if t.key <= k {
      assert k !in Keys(t.left);
      WeightAbsent(t.left, w, k);
    }
  }

  /**
   * The arithmetic of a rebuilt root: the side a key belongs to decides
   * whether it is dropped; `inL` and `inR` say whether each side drops it.
   */
  lemma JoinCore<P>(pub: Tree<P>, x: Tree<P>, y: Tree<P>, d: P, w: P -> nat, k: Key, inDet: bool, inL: bool, inR: bool)
    requires pub.Node? && w(d) == w(pub.data) && inDet == (inL || inR)
    requires k <= pub.key ==> !inR && Weight(pub.right, w)[k] == 0
    requires pub.key <= k ==> !inL && Weight(pub.left, w)[k] == 0
    requires Weight(x, w)[k] == if inL then 0 else Weight(pub.left, w)[k]
    requires Weight(y, w)[k] == if inR then 0 else Weight(pub.right, w)[k]
    ensures Weight(Node(pub.pry, pub.key, d, x, y), w)[k] == if inDet then 0 else Weight(pub, w)[k]
  {
    assert Weight(Node(pub.pry, pub.key, d, x, y), w)[k] == Weight(x, w)[k] + Copies(pub.key, w(d))[k] + Weight(y, w)[k];
  }

  lemma {:induction false} KeptAtDrop(pub: Tree<PItem>, det: Tree<PItem>, h: Key -> Prio, a: nat, lo: nat, hi: nat, v: nat, k: Key)
    requires Treap(pub, h) && Treap(det, h) && Injective(h)
    requires Every(pub, Published(a)) && Every(det, Fresh(lo, hi)) && a < lo && a <= v
    requires pub.Node? && det.Node? && pub.key != det.key && !(pub.pry > det.pry)
    ensures Weight(CopySubtract(pub, det), At(v))[k] == if Weight(det, At(v))[k] > 0 then 0 else Weight(pub, At(v))[k]
    decreases Size(pub) + Size(det), 0
  {
    var rest := CopyConcat(det.left, det.right);
    assert CopySubtract(pub, det) == CopySubtract(pub, rest);
    DroppedRoot(pub, det, h);
    RestTreap(det, h);
    EveryWeaker(det.left, Fresh(lo, hi), Transient());
    EveryWeaker(det.right, Fresh(lo, hi), Transient());
    TransientCopyKeeps(det.left, At(v));
    TransientCopyKeeps(det.right, At(v));
    ConcatWeight(det.left, det.right, CopyIfNeed, At(v));
    ConcatEvery(det.left, det.right, CopyIfNeed, Fresh(lo, hi));
    CopySubtractAt(pub, rest, h, a, lo, hi, v, k);
    if k == det.key {
      WeightAbsent(pub, At(v), k);
    }
  }

  /**
   * A counterexample to `copy_subtract` as written: key 5 is published at
   * version 0, and a batch deletes keys 7 and 5 at versions 1 and 2. As of
   * version 1 key 5 has not been deleted yet and still counts 1, but the
   * version as written drops its node at every version of the batch. Ending
   * the history at the deleting version answers 1.
   */
  lemma CopySubtractAsWrittenLoses(h: Key -> Prio)
    requires Injective(h)
    ensures Weight(CopySubtractAsWritten(MakeHashedNode(0, 5, h), BuildVersioned(1, [7, 5], h)), At(1))[5] == 0
    ensures Weight(CopySubtract(MakeHashedNode(0, 5, h), BuildVersioned(1, [7, 5], h)), At(1))[5] == 1
  {
    var pub := MakeHashedNode(0, 5, h);
    var det := BuildVersioned(1, [7, 5], h);
    assert Every(pub, Published(0));
    BuildVersionedTreap(1, [7, 5], h);
    BuildVersionedKeys(1, [7, 5], h, 5);
    BuildVersionedFresh(1, [7, 5], 3, h);
    BuildVersionedAt(1, [7, 5], h, 1);
    assert [7, 5][..Clip(1, 2, 1)] == [7];
    SingleAt(0, 5, h, 1);
    CopySubtractAsWrittenAt(pub, det, h, 0, 1, 5);
    CopySubtractAt(pub, det, h, 0, 1, 3, 1, 5);
  }
}
