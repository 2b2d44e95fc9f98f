/**
 * Building the initial per-version treap: `split` and `merge` relink the
 * nodes of two treaps into one, adding up the counters of equal keys, and
 * `build` merges the treaps of the two halves of the input array. The
 * relinking happens in place in the source; here each call returns the
 * relinked tree.
 */
module TreapBuild {
  import opened Shape
  import opened TreapNode
  import opened TreapAugment

  /**
   * `split`: the nodes with keys up to `key` and those above it. For a key
   * that is absent the first part holds exactly the smaller keys.
   */
  function Split(t: Tree<Item>, key: Key): (r: (Tree<Item>, Tree<Item>))
    ensures Content(r.0) + Content(r.1) == Content(t)
    ensures Pairs(r.0) + Pairs(r.1) == Pairs(t)
    ensures Bst(t) && Heap(t) ==> Bst(r.0) && Heap(r.0) && Bst(r.1) && Heap(r.1)
    ensures Bst(t) ==> (forall x :: x in Keys(r.0) ==> x <= key) && (forall x :: x in Keys(r.1) ==> key < x)
    ensures Bst(t) && key !in Keys(t) ==> forall x :: x in Keys(r.0) ==> x < key
    ensures Unaugmented(t) ==> Unaugmented(r.0) && Unaugmented(r.1)
  {
    SplitContent(t, key, Id);
    SplitNodes(t, key, Id);
    SplitKeeps(t, key, Id);
    SplitKeepsUnaugmented(t, key);
    assert Bst(t) && key !in Keys(t) ==> forall x :: x in Keys(SplitWith(t, key, Id).0) ==> x < key by {
      if Bst(t) && key !in Keys(t) {
        SplitAbsent(t, key, Id);
      }
    }
    SplitWith(t, key, Id)
  }

  lemma {:induction false} SplitKeepsUnaugmented(t: Tree<Item>, key: Key)
    ensures Unaugmented(t) ==> Unaugmented(SplitWith(t, key, Id).0) && Unaugmented(SplitWith(t, key, Id).1)
  {
    match t
    case Nil =>
    case Node(_, k, _, l, r) =>
      if key < k {
        SplitKeepsUnaugmented(l, key);
      } else {
        SplitKeepsUnaugmented(r, key);
      }
  }

  /** The equal-key case of `merge`: the second node absorbs the first one's counter. */
  function Absorb(d0: Item, d1: Item): (d: Item)
    ensures d.val == d0.val + d1.val && d.ver == d1.ver && d.aug == d1.aug
  {
    d1.(val := d1.val + d0.val)
  }

  /** `merge` of two treaps: a treap over both key sets, counting every key of both. */
  function MergeCounts(t0: Tree<Item>, t1: Tree<Item>): (t: Tree<Item>)
    ensures Content(t) == Content(t0) + Content(t1)
    ensures Keys(t) == Keys(t0) + Keys(t1)
    ensures Unaugmented(t0) && Unaugmented(t1) ==> Unaugmented(t)
  {
    MergeContent(t0, t1);
    MergeNodes(t0, t1, Absorb);
    MergeKeepsUnaugmented(t0, t1);
    Merge(t0, t1, Absorb)
  }

  /** Merging neither loses nor invents a copy of any key. */
  lemma {:induction false} MergeContent(t0: Tree<Item>, t1: Tree<Item>)
    ensures Content(Merge(t0, t1, Absorb)) == Content(t0) + Content(t1)
    decreases Size(t0) + Size(t1), 1
  {
    if t0 == Nil || t1 == Nil {
    } else if t0.key == t1.key {
      MergeContentSame(t0, t1);
    } else if t0.pry > t1.pry {
      MergeContentOver(t0, t1);
    } else {
      MergeContentUnder(t0, t1);
    }
  }

  /** The equal-key step: the merged node holds the copies of both roots. */
  lemma {:induction false} MergeContentSame(t0: Tree<Item>, t1: Tree<Item>)
    requires t0.Node? && t1.Node? && t0.key == t1.key
    ensures Content(Merge(t0, t1, Absorb)) == Content(t0) + Content(t1)
    decreases Size(t0) + Size(t1), 0
  {
    var ml, mr := Merge(t0.left, t1.left, Absorb), Merge(t0.right, t1.right, Absorb);
    var d := Absorb(t0.data, t1.data);
    assert Merge(t0, t1, Absorb) == Node(t0.pry, t0.key, d, ml, mr);
    MergeContent(t0.left, t1.left);
    MergeContent(t0.right, t1.right);
    var c0, c1 := Copies(t0.key, t0.data.val), Copies(t0.key, t1.data.val);
    assert Copies(t0.key, d.val) == c0 + c1;
    Regroup(Content(t0.left), Content(t1.left), c0, c1, Content(t0.right), Content(t1.right));
  }

  /** The step where the second tree is split under the first root. */
  lemma {:induction false} MergeContentOver(t0: Tree<Item>, t1: Tree<Item>)
    requires t0.Node? && t1.Node? && t0.key != t1.key && t0.pry > t1.pry
    ensures Content(Merge(t0, t1, Absorb)) == Content(t0) + Content(t1)
    decreases Size(t0) + Size(t1), 0
  {
    var (l, r) := SplitWith(t1, t0.key, Id);
    var ml, mr := Merge(t0.left, l, Absorb), Merge(t0.right, r, Absorb);
    assert Merge(t0, t1, Absorb) == Node(t0.pry, t0.key, t0.data, ml, mr);
    SplitContent(t1, t0.key, Id);
    MergeContent(t0.left, l);
    MergeContent(t0.right, r);
    Regroup(Content(t0.left), Content(l), Copies(t0.key, t0.data.val), multiset{}, Content(t0.right), Content(r));
  }

  /** The step where the first tree is split under the second root. */
  lemma {:induction false} MergeContentUnder(t0: Tree<Item>, t1: Tree<Item>)
    requires t0.Node? && t1.Node? && t0.key != t1.key && !(t0.pry > t1.pry)
    ensures Content(Merge(t0, t1, Absorb)) == Content(t0) + Content(t1)
    decreases Size(t0) + Size(t1), 0
  {
    var (l, r) := SplitWith(t0, t1.key, Id);
    var ml, mr := Merge(l, t1.left, Absorb), Merge(r, t1.right, Absorb);
    assert Merge(t0, t1, Absorb) == Node(t1.pry, t1.key, t1.data, ml, mr);
    SplitContent(t0, t1.key, Id);
    MergeContent(l, t1.left);
    MergeContent(r, t1.right);
    Regroup(Content(l), Content(t1.left), multiset{}, Copies(t1.key, t1.data.val), Content(r), Content(t1.right));
  }

  lemma {:induction false} MergeKeepsUnaugmented(t0: Tree<Item>, t1: Tree<Item>)
    ensures Unaugmented(t0) && Unaugmented(t1) ==> Unaugmented(Merge(t0, t1, Absorb))
    decreases Size(t0) + Size(t1)
  {
    if t0 == Nil || t1 == Nil {
    } else if t0.key == t1.key {
      MergeKeepsUnaugmented(t0.left, t1.left);
      MergeKeepsUnaugmented(t0.right, t1.right);
    } else if t0.pry > t1.pry {
      var (l, r) := SplitWith(t1, t0.key, Id);
      SplitKeepsUnaugmented(t1, t0.key);
      MergeKeepsUnaugmented(t0.left, l);
      MergeKeepsUnaugmented(t0.right, r);
    } else {
      var (l, r) := SplitWith(t0, t1.key, Id);
      SplitKeepsUnaugmented(t0, t1.key);
      MergeKeepsUnaugmented(l, t1.left);
      MergeKeepsUnaugmented(r, t1.right);
    }
  }

  /**
   * `build(n, elems)`: a treap holding every element of `elems` as many
   * times as it occurs, every node of version 0 with its sum not computed.
   */
  function Build(elems: seq<Key>, h: Key -> Prio): (t: Tree<Item>)
    ensures Content(t) == multiset(elems)
    ensures Unaugmented(t)
    decreases |elems|
  {
    if |elems| == 0 then Nil
    else if |elems| == 1 then MakeHashedNode(0, elems[0], h)
    else
      var n := |elems|;
      Halves(elems, n / 2);
      MergeCounts(Build(elems[..n / 2], h), Build(elems[n / 2..], h))
  }

  lemma Halves(s: seq<Key>, m: nat)
    requires m <= |s|
    ensures multiset(s[..m]) + multiset(s[m..]) == multiset(s)
  {
    assert s == s[..m] + s[m..];
  }

  /** Under a perfect hash, `build` gives a treap. */
  lemma {:induction false} BuildTreap(elems: seq<Key>, h: Key -> Prio)
    requires Injective(h)
    ensures Treap(Build(elems, h), h)
    decreases |elems|
  {
    var n := |elems|;
    if n > 1 {
      BuildTreap(elems[..n / 2], h);
      BuildTreap(elems[n / 2..], h);
      MergeTreap(Build(elems[..n / 2], h), Build(elems[n / 2..], h), Absorb, h);
    }
  }

  /** `build_parallel`: the built treap with every subtree sum computed. */
  function BuildAugmented(elems: seq<Key>, h: Key -> Prio): (t: Tree<Item>)
    ensures Content(t) == multiset(elems) && FullyAug(t)
    ensures Injective(h) ==> Treap(t, h)
  {
    var b := Build(elems, h);
    assert Injective(h) ==> Treap(b, h) by {
      if Injective(h) {
        BuildTreap(elems, h);
      }
    }
    UnaugmentedMemo(b);
    AugmentKeeps(b, h);
    Augment(b).0
  }
}
