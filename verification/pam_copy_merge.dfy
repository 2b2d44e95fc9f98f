/**
 * `copy_merge`: a batch's transient treap merged into the published treap
 * without touching the published nodes. Where a published node has the
 * higher priority a weak copy of it (its current entry only) takes its place
 * and the transient treap is split under it; otherwise the transient root
 * stays, and either absorbs the published node of the same key or the
 * published treap is split under it by `copy_split`, which weak-copies the
 * nodes on its path. The equal-key combination is a parameter here: the
 * source raises the transient history by the published current value
 * (`Shifted`), which forgets the published counter at the batch's versions
 * before the key's first entry; `Carried` keeps it.
 */
module PamCopyMerge {
  import opened Shape
  import opened Weighted
  import opened PamNode
  import opened PamAugment
  import opened PamBuildVersioned

  /** `update_values`: every value of the history raised by `base`, in place. */
  method UpdateValues(vals: array<ValVer>, base: nat)
    modifies vals
    ensures vals[..] == Shift(old(vals[..]), base)
  {
    for i := 0 to vals.Length
      invariant forall j :: 0 <= j < i ==> vals[j] == ValVer(old(vals[j]).val + base, old(vals[j]).ver)
      invariant forall j :: i <= j < vals.Length ==> vals[j] == old(vals[j])
    {
      vals[i] := ValVer(vals[i].val + base, vals[i].ver);
    }
  }

  /** `expose`: the children of a node and the node itself, detached from them. */
  function Expose(t: Tree<PItem>): (r: (Tree<PItem>, Tree<PItem>, Tree<PItem>))
    requires t.Node?
    ensures r.1.Node? && r.1.left == Nil && r.1.right == Nil
    ensures Node(r.1.pry, r.1.key, r.1.data, r.0, r.2) == t
  {
    (t.left, Node(t.pry, t.key, t.data, Nil, Nil), t.right)
  }

  /**
   * `copy_split`: the published treap split at `key`, the nodes on the path
   * replaced by weak copies and every other subtree shared. The contract
   * gives only the node count; `CopySplitTreap` states the order and keys
   * of the parts and `CopySplitAt` their counters at every version.
   */
  function CopySplit(t: Tree<PItem>, key: Key): (r: (Tree<PItem>, Tree<PItem>))
    ensures Size(r.0) + Size(r.1) == Size(t)
  {
    SplitWith(t, key, WeakData)
  }

  /** `copy_split` of a treap: two treaps partitioning its nodes around `key`. */
  lemma CopySplitTreap(t: Tree<PItem>, key: Key, h: Key -> Prio)
    requires Treap(t, h)
    ensures Treap(CopySplit(t, key).0, h) && Treap(CopySplit(t, key).1, h)
    ensures Parted(t, CopySplit(t, key).0, CopySplit(t, key).1, key)
  {
    SplitKeeps(t, key, WeakData);
  }

  /**
   * On a tree settled by `v`, `copy_split` keeps the counters as of `v`,
   * and a published tree stays published.
   */
  lemma CopySplitAt(t: Tree<PItem>, key: Key, a: nat, v: nat)
    requires Every(t, Published(a)) && a <= v
    ensures Weight(CopySplit(t, key).0, At(v)) + Weight(CopySplit(t, key).1, At(v)) == Weight(t, At(v))
    ensures Every(CopySplit(t, key).0, Published(a)) && Every(CopySplit(t, key).1, Published(a))
  {
    PublishedEvery(t, a);
    SettledLater(t, a, v);
    WeakKeeps(t, v);
    SplitWeight(t, key, WeakData, At(v));
    SplitEvery(t, key, WeakData, Published(a));
  }

  /** `copy_split` of a memo: the weak copies are transient, the shared subtrees stay memos. */
  lemma {:induction false} CopySplitMemo(t: Tree<PItem>, key: Key)
    requires Memo(t)
    ensures Memo(CopySplit(t, key).0) && Memo(CopySplit(t, key).1)
  {
    match t
    case Nil =>
    case Node(_, k, _, l, r) =>
      MemoChildren(t);
      if key < k {
        CopySplitMemo(l, key);
      } else {
        CopySplitMemo(r, key);
      }
  }

  /**
   * `copy_merge(pub, ins)` with the equal-key payload `c(pub node, transient node)`.
   * The published side is only read: every node of the result is a node of
   * `ins`, a weak copy of a node of `pub` or a shared subtree of `pub`.
   */
  function CopyMergeWith(pub: Tree<PItem>, ins: Tree<PItem>, c: (PItem, PItem) -> PItem): Tree<PItem>
    decreases Size(pub) + Size(ins)
  {
    if pub == Nil then ins
    else if ins == Nil then pub
    else if pub.pry > ins.pry then
      var (il, ir) := SplitWith(ins, pub.key, Id);
      Node(pub.pry, pub.key, WeakData(pub.data), CopyMergeWith(pub.left, il, c), CopyMergeWith(pub.right, ir, c))
    else
      var (il, n, ir) := Expose(ins);
      if pub.key == n.key then
        Node(n.pry, n.key, c(pub.data, n.data), CopyMergeWith(pub.left, il, c), CopyMergeWith(pub.right, ir, c))
      else
        var (pl, pr) := CopySplit(pub, n.key);
        Node(n.pry, n.key, n.data, CopyMergeWith(pl, il, c), CopyMergeWith(pr, ir, c))
  }

  /** The equal-key node as the source writes it: the transient history raised by the published current value. */
  function Shifted(d0: PItem, d1: PItem): (d: PItem)
    ensures d.vals == Shift(d1.vals, Last(d0.vals).val) && d.vstat == d1.vstat
  {
    d1.(vals := Shift(d1.vals, Last(d0.vals).val))
  }

  /**
   * The equal-key node as `merge_values` would make it from a weak copy of
   * the published node and the transient one: the published current entry,
   * then the transient history raised by its value.
   */
  function Carried(d0: PItem, d1: PItem): (d: PItem)
    ensures d.vals == Appended(WeakData(d0).vals, d1.vals) && d.vstat == d1.vstat
  {
    d1.(vals := Appended(WeakData(d0).vals, d1.vals))
  }

  /** `copy_merge` as written. */
  function CopyMergeAsWritten(pub: Tree<PItem>, ins: Tree<PItem>): Tree<PItem>
  {
    CopyMergeWith(pub, ins, Shifted)
  }

  /** `copy_merge` with the published counter carried into the history of an equal key. */
  function CopyMerge(pub: Tree<PItem>, ins: Tree<PItem>): Tree<PItem>
  {
    CopyMergeWith(pub, ins, Carried)
  }

  /** The result holds the keys of both trees and no (key, priority) pair that is in neither. */
  lemma {:induction false} CopyMergeNodes(pub: Tree<PItem>, ins: Tree<PItem>, c: (PItem, PItem) -> PItem)
    ensures Joined(CopyMergeWith(pub, ins, c), pub, ins)
    decreases Size(pub) + Size(ins), 1
  {
    if pub == Nil || ins == Nil {
    } else if pub.pry > ins.pry {
      CopyMergeNodesOver(pub, ins, c);
    } else if pub.key == ins.key {
      var ml, mr := CopyMergeWith(pub.left, ins.left, c), CopyMergeWith(pub.right, ins.right, c);
      assert CopyMergeWith(pub, ins, c) == Node(ins.pry, ins.key, c(pub.data, ins.data), ml, mr);
      CopyMergeNodes(pub.left, ins.left, c);
      CopyMergeNodes(pub.right, ins.right, c);
    } else {
      CopyMergeNodesUnder(pub, ins, c);
    }
  }

  lemma {:induction false} CopyMergeNodesOver(pub: Tree<PItem>, ins: Tree<PItem>, c: (PItem, PItem) -> PItem)
    requires pub.Node? && ins.Node? && pub.pry > ins.pry
    ensures Joined(CopyMergeWith(pub, ins, c), pub, ins)
    decreases Size(pub) + Size(ins), 0
  {
    var (il, ir) := SplitWith(ins, pub.key, Id);
    var ml, mr := CopyMergeWith(pub.left, il, c), CopyMergeWith(pub.right, ir, c);
    assert CopyMergeWith(pub, ins, c) == Node(pub.pry, pub.key, WeakData(pub.data), ml, mr);
    SplitNodes(ins, pub.key, Id);
    CopyMergeNodes(pub.left, il, c);
    CopyMergeNodes(pub.right, ir, c);
  }

  lemma {:induction false} CopyMergeNodesUnder(pub: Tree<PItem>, ins: Tree<PItem>, c: (PItem, PItem) -> PItem)
    requires pub.Node? && ins.Node? && !(pub.pry > ins.pry) && pub.key != ins.key
    ensures Joined(CopyMergeWith(pub, ins, c), pub, ins)
    decreases Size(pub) + Size(ins), 0
  {
    var (pl, pr) := CopySplit(pub, ins.key);
    var ml, mr := CopyMergeWith(pl, ins.left, c), CopyMergeWith(pr, ins.right, c);
    assert CopyMergeWith(pub, ins, c) == Node(ins.pry, ins.key, ins.data, ml, mr);
    SplitNodes(pub, ins.key, WeakData);
    CopyMergeNodes(pl, ins.left, c);
    CopyMergeNodes(pr, ins.right, c);
  }

  /** Merging two treaps keyed by a perfect hash gives a treap. */
  lemma {:induction false} CopyMergeTreap(pub: Tree<PItem>, ins: Tree<PItem>, c: (PItem, PItem) -> PItem, h: Key -> Prio)
    requires Treap(pub, h) && Treap(ins, h) && Injective(h)
    ensures Treap(CopyMergeWith(pub, ins, c), h)
    decreases Size(pub) + Size(ins), 1
  {
    if pub == Nil || ins == Nil {
    } else if pub.pry > ins.pry {
      CopyMergeTreapOver(pub, ins, c, h);
    } else if pub.key == ins.key {
      CopyMergeTreapSame(pub, ins, c, h);
    } else {
      CopyMergeTreapUnder(pub, ins, c, h);
    }
  }

  lemma {:induction false} CopyMergeTreapOver(pub: Tree<PItem>, ins: Tree<PItem>, c: (PItem, PItem) -> PItem, h: Key -> Prio)
    requires Treap(pub, h) && Treap(ins, h) && Injective(h)
    requires pub.Node? && ins.Node? && pub.pry > ins.pry
    ensures Treap(CopyMergeWith(pub, ins, c), h)
    decreases Size(pub) + Size(ins), 0
  {
    var (il, ir) := SplitWith(ins, pub.key, Id);
    var ml, mr := CopyMergeWith(pub.left, il, c), CopyMergeWith(pub.right, ir, c);
    assert CopyMergeWith(pub, ins, c) == Node(pub.pry, pub.key, WeakData(pub.data), ml, mr);
    SplitKeeps(ins, pub.key, Id);
    CopyMergeTreap(pub.left, il, c, h);
    CopyMergeTreap(pub.right, ir, c, h);
    CopyMergeNodes(pub.left, il, c);
    CopyMergeNodes(pub.right, ir, c);
    MergeOverStep(pub, ins, il, ir, ml, mr, WeakData(pub.data), h);
  }

  lemma {:induction false} CopyMergeTreapSame(pub: Tree<PItem>, ins: Tree<PItem>, c: (PItem, PItem) -> PItem, h: Key -> Prio)
    requires Treap(pub, h) && Treap(ins, h) && Injective(h)
    requires pub.Node? && ins.Node? && !(pub.pry > ins.pry) && pub.key == ins.key
    ensures Treap(CopyMergeWith(pub, ins, c), h)
    decreases Size(pub) + Size(ins), 0
  {
    var ml, mr := CopyMergeWith(pub.left, ins.left, c), CopyMergeWith(pub.right, ins.right, c);
    assert CopyMergeWith(pub, ins, c) == Node(ins.pry, ins.key, c(pub.data, ins.data), ml, mr);
    CopyMergeTreap(pub.left, ins.left, c, h);
    CopyMergeTreap(pub.right, ins.right, c, h);
    CopyMergeNodes(pub.left, ins.left, c);
    CopyMergeNodes(pub.right, ins.right, c);
    assert (pub.key, pub.pry) in Pairs(pub) && (ins.key, ins.pry) in Pairs(ins);
    MergeSameStep(pub, ins, ml, mr, c(pub.data, ins.data), h);
  }

  lemma {:induction false} CopyMergeTreapUnder(pub: Tree<PItem>, ins: Tree<PItem>, c: (PItem, PItem) -> PItem, h: Key -> Prio)
    requires Treap(pub, h) && Treap(ins, h) && Injective(h)
    requires pub.Node? && ins.Node? && !(pub.pry > ins.pry) && pub.key != ins.key
    ensures Treap(CopyMergeWith(pub, ins, c), h)
    decreases Size(pub) + Size(ins), 0
  {
    DistinctRoots(pub, ins, h);
    var (pl, pr) := CopySplit(pub, ins.key);
    var ml, mr := CopyMergeWith(pl, ins.left, c), CopyMergeWith(pr, ins.right, c);
    assert CopyMergeWith(pub, ins, c) == Node(ins.pry, ins.key, ins.data, ml, mr);
    CopySplitTreap(pub, ins.key, h);
    CopyMergeTreap(pl, ins.left, c, h);
    CopyMergeTreap(pr, ins.right, c, h);
    CopyMergeNodes(pl, ins.left, c);
    CopyMergeNodes(pr, ins.right, c);
    MergeUnderStep(pub, ins, pl, pr, ml, mr, ins.data, h);
  }

  /**
   * The published tree is a memo and the batch treap transient: every node
   * the merge makes is transient and every shared subtree stays a memo.
   */
  lemma {:induction false} CopyMergeMemo(pub: Tree<PItem>, ins: Tree<PItem>, c: (PItem, PItem) -> PItem)
    requires Memo(pub) && Every(ins, Transient())
    requires forall d0, d1 :: c(d0, d1).vstat == d1.vstat
    ensures Memo(CopyMergeWith(pub, ins, c))
    decreases Size(pub) + Size(ins)
  {
    if pub == Nil {
      TransientMemo(ins);
    } else if ins == Nil {
    } else if pub.pry > ins.pry {
      var (il, ir) := SplitWith(ins, pub.key, Id);
      SplitEvery(ins, pub.key, Id, Transient());
      MemoChildren(pub);
      CopyMergeMemo(pub.left, il, c);
      CopyMergeMemo(pub.right, ir, c);
    } else if pub.key == ins.key {
      MemoChildren(pub);
      CopyMergeMemo(pub.left, ins.left, c);
      CopyMergeMemo(pub.right, ins.right, c);
    } else {
      var (pl, pr) := CopySplit(pub, ins.key);
      CopySplitMemo(pub, ins.key);
      CopyMergeMemo(pl, ins.left, c);
      CopyMergeMemo(pr, ins.right, c);
    }
  }

  /** A weak copy of a payload satisfying `p0` satisfies it too and weighs the same. */
  ghost predicate WeakStable(p0: PItem -> bool, w: PItem -> nat)
  {
    forall d :: p0(d) ==> p0(WeakData(d)) && w(WeakData(d)) == w(d)
  }

  /** On payloads satisfying `p0` and `p1`, the equal-key combination adds the weights. */
  ghost predicate AddsUnder(c: (PItem, PItem) -> PItem, p0: PItem -> bool, p1: PItem -> bool, w: PItem -> nat)
  {
    forall d0, d1 :: p0(d0) && p1(d1) ==> w(c(d0, d1)) == w(d0) + w(d1)
  }

  /** Weak copies keep the weight of a tree whose payloads are stable under them. */
  lemma {:induction false} StableKeeps(t: Tree<PItem>, p0: PItem -> bool, w: PItem -> nat)
    requires Every(t, p0) && WeakStable(p0, w)
    ensures Keeps(t, WeakData, w)
  {
    match t
    case Nil =>
    case Node(_, _, _, l, r) =>
      StableKeeps(l, p0, w);
      StableKeeps(r, p0, w);
  }

  /**
   * The weight of the result is the sum of both trees' weights whenever weak
   * copies keep the published weights and the equal-key combination adds them.
   */
  lemma {:induction false} CopyMergeWeight(pub: Tree<PItem>, ins: Tree<PItem>, c: (PItem, PItem) -> PItem, p0: PItem -> bool, p1: PItem -> bool, w: PItem -> nat)
    requires Every(pub, p0) && Every(ins, p1) && WeakStable(p0, w) && AddsUnder(c, p0, p1, w)
    ensures Weight(CopyMergeWith(pub, ins, c), w) == Weight(pub, w) + Weight(ins, w)
    decreases Size(pub) + Size(ins), 1
  {
    if pub == Nil || ins == Nil {
    } else if pub.pry > ins.pry {
      CopyMergeWeightOver(pub, ins, c, p0, p1, w);
    } else if pub.key == ins.key {
      CopyMergeWeightSame(pub, ins, c, p0, p1, w);
    } else {
      CopyMergeWeightUnder(pub, ins, c, p0, p1, w);
    }
  }

  lemma {:induction false} CopyMergeWeightOver(pub: Tree<PItem>, ins: Tree<PItem>, c: (PItem, PItem) -> PItem, p0: PItem -> bool, p1: PItem -> bool, w: PItem -> nat)
    requires Every(pub, p0) && Every(ins, p1) && WeakStable(p0, w) && AddsUnder(c, p0, p1, w)
    requires pub.Node? && ins.Node? && pub.pry > ins.pry
    ensures Weight(CopyMergeWith(pub, ins, c), w) == Weight(pub, w) + Weight(ins, w)
    decreases Size(pub) + Size(ins), 0
  {
    var (il, ir) := SplitWith(ins, pub.key, Id);
    var ml, mr := CopyMergeWith(pub.left, il, c), CopyMergeWith(pub.right, ir, c);
    assert CopyMergeWith(pub, ins, c) == Node(pub.pry, pub.key, WeakData(pub.data), ml, mr);
    KeepsId(ins, w);
    SplitWeight(ins, pub.key, Id, w);
    SplitEvery(ins, pub.key, Id, p1);
    CopyMergeWeight(pub.left, il, c, p0, p1, w);
    CopyMergeWeight(pub.right, ir, c, p0, p1, w);
    assert w(WeakData(pub.data)) == w(pub.data);
    Regroup(Weight(pub.left, w), Weight(il, w), Copies(pub.key, w(pub.data)), multiset{}, Weight(pub.right, w), Weight(ir, w));
  }

  lemma {:induction false} CopyMergeWeightSame(pub: Tree<PItem>, ins: Tree<PItem>, c: (PItem, PItem) -> PItem, p0: PItem -> bool, p1: PItem -> bool, w: PItem -> nat)
    requires Every(pub, p0) && Every(ins, p1) && WeakStable(p0, w) && AddsUnder(c, p0, p1, w)
    requires pub.Node? && ins.Node? && !(pub.pry > ins.pry) && pub.key == ins.key
    ensures Weight(CopyMergeWith(pub, ins, c), w) == Weight(pub, w) + Weight(ins, w)
    decreases Size(pub) + Size(ins), 0
  {
    var ml, mr := CopyMergeWith(pub.left, ins.left, c), CopyMergeWith(pub.right, ins.right, c);
    var d := c(pub.data, ins.data);
    assert CopyMergeWith(pub, ins, c) == Node(ins.pry, ins.key, d, ml, mr);
    CopyMergeWeight(pub.left, ins.left, c, p0, p1, w);
    CopyMergeWeight(pub.right, ins.right, c, p0, p1, w);
    var c0, c1 := Copies(pub.key, w(pub.data)), Copies(pub.key, w(ins.data));
    assert Copies(pub.key, w(d)) == c0 + c1;
    Regroup(Weight(pub.left, w), Weight(ins.left, w), c0, c1, Weight(pub.right, w), Weight(ins.right, w));
  }

  lemma {:induction false} CopyMergeWeightUnder(pub: Tree<PItem>, ins: Tree<PItem>, c: (PItem, PItem) -> PItem, p0: PItem -> bool, p1: PItem -> bool, w: PItem -> nat)
    requires Every(pub, p0) && Every(ins, p1) && WeakStable(p0, w) && AddsUnder(c, p0, p1, w)
    requires pub.Node? && ins.Node? && !(pub.pry > ins.pry) && pub.key != ins.key
    ensures Weight(CopyMergeWith(pub, ins, c), w) == Weight(pub, w) + Weight(ins, w)
    decreases Size(pub) + Size(ins), 0
  {
    var (pl, pr) := CopySplit(pub, ins.key);
    var ml, mr := CopyMergeWith(pl, ins.left, c), CopyMergeWith(pr, ins.right, c);
    assert CopyMergeWith(pub, ins, c) == Node(ins.pry, ins.key, ins.data, ml, mr);
    StableKeeps(pub, p0, w);
    SplitWeight(pub, ins.key, WeakData, w);
    SplitEvery(pub, ins.key, WeakData, p0);
    CopyMergeWeight(pl, ins.left, c, p0, p1, w);
    CopyMergeWeight(pr, ins.right, c, p0, p1, w);
    Regroup(Weight(pl, w), Weight(ins.left, w), multiset{}, Copies(ins.key, w(ins.data)), Weight(pr, w), Weight(ins.right, w));
  }

  /**
   * Weak copies of `p0` payloads satisfy `p0`; payloads of either side and
   * the equal-key combination of a `p0` and a `p1` payload satisfy `q`.
   */
  ghost predicate Lands(c: (PItem, PItem) -> PItem, p0: PItem -> bool, p1: PItem -> bool, q: PItem -> bool)
  {
    && (forall d :: p0(d) ==> p0(WeakData(d)) && q(d))
    && (forall d :: p1(d) ==> q(d))
    && (forall d0, d1 :: p0(d0) && p1(d1) ==> q(c(d0, d1)))
  }

  /** Every node of the result satisfies `q` when every node either side contributes does. */
  lemma {:induction false} CopyMergeEvery(pub: Tree<PItem>, ins: Tree<PItem>, c: (PItem, PItem) -> PItem, p0: PItem -> bool, p1: PItem -> bool, q: PItem -> bool)
    requires Every(pub, p0) && Every(ins, p1) && Lands(c, p0, p1, q)
    ensures Every(CopyMergeWith(pub, ins, c), q)
    decreases Size(pub) + Size(ins)
  {
    if pub == Nil {
      EveryWeaker(ins, p1, q);
    } else if ins == Nil {
      EveryWeaker(pub, p0, q);
    } else if pub.pry > ins.pry {
      var (il, ir) := SplitWith(ins, pub.key, Id);
      SplitEvery(ins, pub.key, Id, p1);
      CopyMergeEvery(pub.left, il, c, p0, p1, q);
      CopyMergeEvery(pub.right, ir, c, p0, p1, q);
    } else if pub.key == ins.key {
      CopyMergeEvery(pub.left, ins.left, c, p0, p1, q);
      CopyMergeEvery(pub.right, ins.right, c, p0, p1, q);
    } else {
      var (pl, pr) := CopySplit(pub, ins.key);
      SplitEvery(pub, ins.key, WeakData, p0);
      CopyMergeEvery(pl, ins.left, c, p0, p1, q);
      CopyMergeEvery(pr, ins.right, c, p0, p1, q);
    }
  }

  /** On a node settled by `a`, a weak copy is settled by `a` and reads the same from `a` on. */
  lemma PublishedStable(a: nat, v: nat)
    requires a <= v
    ensures WeakStable(Published(a), At(v))
  {
    forall d | Published(a)(d)
      ensures Published(a)(WeakData(d)) && At(v)(WeakData(d)) == At(v)(d)
    {
      ValueAtSettled(d.vals, v);
    }
  }

  /**
   * Both equal-key combinations keep a node published: the batch's entries
   * come after the published ones and the last of them is not after `m`.
   */
  lemma CombinedPublished(a: nat, lo: nat, hi: nat, m: nat)
    requires a < lo && a <= m && hi <= m + 1
    ensures Lands(Carried, Published(a), Fresh(lo, hi), Published(m))
    ensures Lands(Shifted, Published(a), Fresh(lo, hi), Published(m))
  {
    forall d0, d1 | Published(a)(d0) && Fresh(lo, hi)(d1)
      ensures Published(m)(Carried(d0, d1)) && Published(m)(Shifted(d0, d1))
    {
      var x, b := WeakData(d0).vals, d1.vals;
      var c := Appended(x, b);
      assert c == x + Shift(b, Last(x).val);
      forall i, j | 0 <= i < j < |c|
        ensures c[i].ver < c[j].ver
      {
        if i == 0 {
          assert c[j].ver == b[j - 1].ver;
        } else {
          assert c[i].ver == b[i - 1].ver && c[j].ver == b[j - 1].ver;
        }
      }
      assert Last(b).ver < hi;
    }
    forall d | Fresh(lo, hi)(d)
      ensures Published(m)(d)
    {
      assert Last(d.vals).ver < hi;
    }
  }

  /**
   * Merging a batch stamped in `[lo, hi)` into a tree published by an
   * earlier `a` gives a tree published by any `m` from `a` and `hi - 1` on,
   * whichever equal-key combination is used.
   */
  lemma CopyMergePublished(pub: Tree<PItem>, ins: Tree<PItem>, a: nat, lo: nat, hi: nat, m: nat)
    requires Every(pub, Published(a)) && Every(ins, Fresh(lo, hi))
    requires a < lo && a <= m && hi <= m + 1
    ensures Every(CopyMerge(pub, ins), Published(m))
    ensures Every(CopyMergeAsWritten(pub, ins), Published(m))
  {
    CombinedPublished(a, lo, hi, m);
    CopyMergeEvery(pub, ins, Carried, Published(a), Fresh(lo, hi), Published(m));
    CopyMergeEvery(pub, ins, Shifted, Published(a), Fresh(lo, hi), Published(m));
  }

  /** Carrying the published entry adds the published counter to the batch's at every version from `a` on. */
  lemma CarriedAdds(a: nat, lo: nat, hi: nat, v: nat)
    requires a < lo && a <= v
    ensures AddsUnder(Carried, Published(a), Fresh(lo, hi), At(v))
  {
    forall d0, d1 | Published(a)(d0) && Fresh(lo, hi)(d1)
      ensures At(v)(Carried(d0, d1)) == At(v)(d0) + At(v)(d1)
    {
      var x := WeakData(d0).vals;
      assert forall i :: 0 <= i < |d1.vals| ==> Last(x).ver <= d1.vals[i].ver;
      AppendedAt(x, d1.vals, v);
      ValueAtSettled(d0.vals, v);
    }
  }

  /**
   * Merging a batch stamped in `[lo, hi)` into a tree published by an
   * earlier `a`: at every version from `a` on, each counter is the published
   * counter plus the batch's.
   */
  lemma CopyMergeAt(pub: Tree<PItem>, ins: Tree<PItem>, a: nat, lo: nat, hi: nat, v: nat)
    requires Every(pub, Published(a)) && Every(ins, Fresh(lo, hi)) && a < lo && a <= v
    ensures Weight(CopyMerge(pub, ins), At(v)) == Weight(pub, At(v)) + Weight(ins, At(v))
  {
    PublishedStable(a, v);
    CarriedAdds(a, lo, hi, v);
    CopyMergeWeight(pub, ins, Carried, Published(a), Fresh(lo, hi), At(v));
  }

  /** Raising the batch history by the published value adds the counters once every batch entry is not after `v`. */
  lemma ShiftedAddsLate(a: nat, lo: nat, hi: nat, v: nat)
    requires a < lo && a <= v && hi <= v + 1
    ensures AddsUnder(Shifted, Published(a), Fresh(lo, hi), At(v))
  {
    forall d0, d1 | Published(a)(d0) && Fresh(lo, hi)(d1)
      ensures At(v)(Shifted(d0, d1)) == At(v)(d0) + At(v)(d1)
    {
      var s := Shift(d1.vals, Last(d0.vals).val);
      assert Last(d1.vals).ver < hi;
      assert s[|s| - 1] == ValVer(Last(d1.vals).val + Last(d0.vals).val, Last(d1.vals).ver);
      ValueAtSettled(d0.vals, v);
      ValueAtSettled(d1.vals, v);
      ValueAtSettled(s, v);
    }
  }

  /**
   * `copy_merge` as written gets the counters right at every version not
   * before the batch's last one, so once the whole batch is committed.
   */
  lemma CopyMergeAsWrittenLate(pub: Tree<PItem>, ins: Tree<PItem>, a: nat, lo: nat, hi: nat, v: nat)
    requires Every(pub, Published(a)) && Every(ins, Fresh(lo, hi)) && a < lo && a <= v && hi <= v + 1
    ensures Weight(CopyMergeAsWritten(pub, ins), At(v)) == Weight(pub, At(v)) + Weight(ins, At(v))
  {
    PublishedStable(a, v);
    ShiftedAddsLate(a, lo, hi, v);
    CopyMergeWeight(pub, ins, Shifted, Published(a), Fresh(lo, hi), At(v));
  }

  /**
   * Key 5 published with counter 1 at version 0; the batch inserts 7 then 5
   * at versions 1 and 2. As of version 1 the key still counts 1, but
   * `copy_merge` as written answers 0: the raised batch history of key 5
   * starts at version 2 and nothing before it remembers the published
   * counter.
   */
  lemma CopyMergeAsWrittenLoses(h: Key -> Prio)
    ensures Weight(CopyMergeAsWritten(MakeHashedNode(0, 5, h), BuildVersioned(1, [7, 5], h)), At(1))[5] == 0
  {
    var ins := BuildVersioned(1, [7, 5], h);
    assert [7, 5][..1] == [7] && [7, 5][1..] == [5];
    assert ins == Merge(MakeHashedNode(1, 7, h), MakeHashedNode(2, 5, h), Concatenated);
    if h(7) > h(5) {
      LosesUnder(h);
    } else {
      LosesSame(h);
    }
  }

  /** On the same input, carrying the published entry answers 1 as of version 1. */
  lemma CopyMergeCarries(h: Key -> Prio)
    ensures Weight(CopyMerge(MakeHashedNode(0, 5, h), BuildVersioned(1, [7, 5], h)), At(1))[5] == 1
  {
    var pub := MakeHashedNode(0, 5, h);
    assert Every(pub, Published(0));
    BuildVersionedFresh(1, [7, 5], 3, h);
    CopyMergeAt(pub, BuildVersioned(1, [7, 5], h), 0, 1, 3, 1);
    SingleAt(0, 5, h, 1);
    BuildVersionedAt(1, [7, 5], h, 1);
    assert [7, 5][..Clip(1, 2, 1)] == [7];
  }

  /** The batch's root is key 7, and the published key 5 is weak-copied under it. */
  lemma LosesUnder(h: Key -> Prio)
    requires h(7) > h(5)
    ensures Weight(CopyMergeAsWritten(MakeHashedNode(0, 5, h), Merge(MakeHashedNode(1, 7, h), MakeHashedNode(2, 5, h), Concatenated)), At(1))[5] == 0
  {
    var pub, n7, n5 := MakeHashedNode(0, 5, h), MakeHashedNode(1, 7, h), MakeHashedNode(2, 5, h);
    var ins := Merge(n7, n5, Concatenated);
    assert SplitWith(n5, 7, Id) == (n5, Nil);
    assert Merge(Nil, n5, Concatenated) == n5 && Merge<PItem>(Nil, Nil, Concatenated) == Nil;
    assert ins == Node(h(7), 7, n7.data, n5, Nil);
    var w := Node(h(5), 5, WeakData(pub.data), Nil, Nil);
    assert CopySplit(pub, 7) == (w, Nil);
    var e := Shifted(WeakData(pub.data), n5.data);
    var m := Node(h(5), 5, e, Nil, Nil);
    assert CopyMergeWith(w, n5, Shifted) == m;
    assert CopyMergeAsWritten(pub, ins) == Node(h(7), 7, n7.data, m, Nil);
    assert e.vals == [ValVer(2, 2)];
    ValueAtNone(e.vals, 1);
    assert Weight(m, At(1)) == multiset{} + Copies(5, 0) + multiset{};
  }

  /** The batch's root is key 5 itself, and its raised history replaces the published node. */
  lemma LosesSame(h: Key -> Prio)
    requires h(7) <= h(5)
    ensures Weight(CopyMergeAsWritten(MakeHashedNode(0, 5, h), Merge(MakeHashedNode(1, 7, h), MakeHashedNode(2, 5, h), Concatenated)), At(1))[5] == 0
  {
    var pub, n7, n5 := MakeHashedNode(0, 5, h), MakeHashedNode(1, 7, h), MakeHashedNode(2, 5, h);
    var ins := Merge(n7, n5, Concatenated);
    assert SplitWith(n7, 5, Id) == (Nil, n7);
    assert Merge(n7, Nil, Concatenated) == n7 && Merge<PItem>(Nil, Nil, Concatenated) == Nil;
    assert ins == Node(h(5), 5, n5.data, Nil, n7);
    var e := Shifted(pub.data, n5.data);
    assert CopyMergeWith(Nil, Nil, Shifted) == Nil;
    assert CopyMergeWith(Nil, n7, Shifted) == n7;
    var r := Node(h(5), 5, e, Nil, n7);
    assert CopyMergeWith(pub, ins, Shifted) == r;
    assert e.vals == [ValVer(2, 2)];
    ValueAtNone(e.vals, 1);
    assert Weight(n7, At(1))[5] == 0;
    assert Weight(r, At(1)) == multiset{} + Copies(5, 0) + Weight(n7, At(1));
  }
}
