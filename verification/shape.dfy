/**
 * The shape shared by both node flavours of the index: a binary search tree
 * ordered by `key` that is at the same time a max-heap on `pry` (a treap).
 * A node is `Node(pry, key, data, left, right)`; `data` is the flavour's own
 * payload (a counter for the per-version treap, a value history for the
 * per-key-history treap) and `Nil` stands for the null pointer.
 *
 * The operations here are the ones whose recursion is the same in both
 * flavours: splitting at a key, concatenating two treaps and merging two
 * treaps. Where the flavours differ only in what happens to the payload of a
 * node on the path, that difference is a function argument.
 */
module Shape {

  /** `uint64_t`: keys and priorities. */
  newtype u64 = x: int | 0 <= x < 0x1_0000_0000_0000_0000

  type Key = u64
  type Prio = u64

  datatype Tree<P> = Nil | Node(pry: Prio, key: Key, data: P, left: Tree<P>, right: Tree<P>)

  function Id<P>(p: P): P { p }

  /** `n` copies of the key `k`. */
  function Copies(k: Key, n: nat): (m: multiset<Key>)
    ensures m[k] == n && forall x :: x != k ==> m[x] == 0
  {
    multiset{}[k := n]
  }

  /** The two sides of a merged node, regrouped by the tree they came from. */
  lemma Regroup(a0: multiset<Key>, a1: multiset<Key>, c0: multiset<Key>, c1: multiset<Key>, b0: multiset<Key>, b1: multiset<Key>)
    ensures (a0 + a1) + (c0 + c1) + (b0 + b1) == (a0 + c0 + b0) + (a1 + c1 + b1)
  {
  }

  function Keys<P>(t: Tree<P>): set<Key>
  {
    match t
    case Nil => {}
    case Node(_, k, _, l, r) => Keys(l) + {k} + Keys(r)
  }

  /** The (key, priority) pair of every node. */
  function Pairs<P>(t: Tree<P>): set<(Key, Prio)>
  {
    match t
    case Nil => {}
    case Node(p, k, _, l, r) => Pairs(l) + {(k, p)} + Pairs(r)
  }

  function Size<P>(t: Tree<P>): nat
  {
    match t
    case Nil => 0
    case Node(_, _, _, l, r) => Size(l) + 1 + Size(r)
  }

  function Height<P>(t: Tree<P>): nat
  {
    match t
    case Nil => 0
    case Node(_, _, _, l, r) => 1 + if Height(l) < Height(r) then Height(r) else Height(l)
  }

  /** Every subtree of `t`, `t` included. */
  function Subtrees<P(==)>(t: Tree<P>): set<Tree<P>>
  {
    match t
    case Nil => {Nil}
    case Node(_, _, _, l, r) => Subtrees(l) + {t} + Subtrees(r)
  }

  /** The children of a subtree are subtrees too. */
  lemma {:induction false} SubtreesClosed<P>(t: Tree<P>, s: Tree<P>)
    requires s in Subtrees(t) && s.Node?
    ensures s.left in Subtrees(t) && s.right in Subtrees(t)
  {
    match t
    case Nil =>
    case Node(_, _, _, l, r) =>
      if s in Subtrees(l) {
        SubtreesClosed(l, s);
      } else if s in Subtrees(r) {
        SubtreesClosed(r, s);
      } else {
        assert s == t;
        SubtreesOwn(l);
        SubtreesOwn(r);
      }
  }

  /** The subtrees of the children are subtrees of the node. */
  lemma SubtreesOfChildren<P>(t: Tree<P>)
    requires t.Node?
    ensures Subtrees(t.left) <= Subtrees(t) && Subtrees(t.right) <= Subtrees(t)
  {
  }

  lemma SubtreesOwn<P>(t: Tree<P>)
    ensures t in Subtrees(t)
  {
  }

  /**
   * Which ends of a query range `[lo, hi]` a subtree met by `range_estimate`
   * may still cross: `OpenClose` means every key of the subtree is known to
   * be at most `hi`, `CloseOpen` at least `lo`, `CloseClose` both.
   */
  datatype Cover = OpenOpen | OpenClose | CloseOpen | CloseClose

  /** What the cover state promises about the keys of the subtree. */
  ghost predicate Covered<P>(t: Tree<P>, lo: Key, hi: Key, d: Cover)
  {
    && (d == OpenClose || d == CloseClose ==> forall k :: k in Keys(t) ==> k <= hi)
    && (d == CloseOpen || d == CloseClose ==> forall k :: k in Keys(t) ==> lo <= k)
  }

  /** Binary-search-tree order: smaller keys to the left, larger to the right. */
  ghost predicate Bst<P>(t: Tree<P>)
  {
    match t
    case Nil => true
    case Node(_, k, _, l, r) =>
      && (forall x :: x in Keys(l) ==> x < k)
      && (forall x :: x in Keys(r) ==> k < x)
      && Bst(l) && Bst(r)
  }

  /** Heap order: every node's priority is above those of its descendants. */
  ghost predicate Heap<P>(t: Tree<P>)
  {
    match t
    case Nil => true
    case Node(p, _, _, l, r) =>
      && (forall q :: q in Pairs(l) ==> q.1 < p)
      && (forall q :: q in Pairs(r) ==> q.1 < p)
      && Heap(l) && Heap(r)
  }

  /** Each node's priority is the hash of its key. */
  ghost predicate Keyed<P>(t: Tree<P>, h: Key -> Prio)
  {
    forall q :: q in Pairs(t) ==> q.1 == h(q.0)
  }

  /** The hash is perfect: distinct keys get distinct priorities. */
  ghost predicate Injective(h: Key -> Prio)
  {
    forall a, b :: h(a) == h(b) ==> a == b
  }

  ghost predicate Treap<P>(t: Tree<P>, h: Key -> Prio)
  {
    Bst(t) && Heap(t) && Keyed(t, h)
  }

  /** All keys of `a` are below all keys of `b`. */
  ghost predicate Before<P>(a: Tree<P>, b: Tree<P>)
  {
    forall x, y :: x in Keys(a) && y in Keys(b) ==> x < y
  }

  /** No priority occurs in both trees. */
  ghost predicate DistinctPrios<P>(a: Tree<P>, b: Tree<P>)
  {
    forall x, y :: x in Pairs(a) && y in Pairs(b) ==> x.1 != y.1
  }

  lemma {:induction false} KeysOfPairs<P>(t: Tree<P>)
    ensures forall q :: q in Pairs(t) ==> q.0 in Keys(t)
    ensures forall k :: k in Keys(t) ==> exists p :: (k, p) in Pairs(t)
  {
    match t
    case Nil =>
    case Node(p, k, _, l, r) =>
      KeysOfPairs(l);
      KeysOfPairs(r);
      assert (k, p) in Pairs(t);
  }

  /** Every key present in a keyed tree is present together with its hash. */
  lemma KeyedMembers<P>(t: Tree<P>, h: Key -> Prio)
    requires Keyed(t, h)
    ensures forall k :: k in Keys(t) ==> (k, h(k)) in Pairs(t)
  {
    KeysOfPairs(t);
  }

  /** The root of a heap-ordered tree has the largest priority. */
  lemma HeapTop<P>(t: Tree<P>)
    requires Heap(t) && t.Node?
    ensures forall q :: q in Pairs(t) ==> q.1 <= t.pry
  {
  }

  /**
   * A key whose hash is not below the root's priority and that is not the
   * root's key is absent, and its hash is above every priority in the tree.
   * This is what the `pry < pry` else-branches of the path-copying code rely on.
   */
  lemma AbsentBelow<P>(t: Tree<P>, h: Key -> Prio, k: Key)
    requires Heap(t) && Keyed(t, h) && Injective(h)
    requires t.Node? && t.pry <= h(k) && t.key != k
    ensures k !in Keys(t)
    ensures forall q :: q in Pairs(t) ==> q.1 < h(k)
  {
    assert (t.key, t.pry) in Pairs(t);
    HeapTop(t);
    KeyedMembers(t, h);
  }

  /** A node over two treaps, with its key between theirs and its priority above theirs, is a treap. */
  lemma NodeTreap<P>(p: Prio, k: Key, d: P, l: Tree<P>, r: Tree<P>, h: Key -> Prio)
    requires Treap(l, h) && Treap(r, h) && p == h(k)
    requires forall x :: x in Keys(l) ==> x < k
    requires forall x :: x in Keys(r) ==> k < x
    requires forall q :: q in Pairs(l) ==> q.1 < p
    requires forall q :: q in Pairs(r) ==> q.1 < p
    ensures Treap(Node(p, k, d, l, r), h)
  {
  }

  /** The subtrees of a treap are treaps, on either side of the root's key, its priority the key's hash. */
  lemma TreapChildren<P>(t: Tree<P>, h: Key -> Prio)
    requires Treap(t, h) && t.Node?
    ensures Treap(t.left, h) && Treap(t.right, h) && t.pry == h(t.key)
    ensures forall x :: x in Keys(t.left) ==> x < t.key
    ensures forall x :: x in Keys(t.right) ==> t.key < x
  {
    assert (t.key, t.pry) in Pairs(t);
  }

  /** `m` holds the keys of `a` and `b` and no node that is in neither. */
  ghost predicate Joined<P>(m: Tree<P>, a: Tree<P>, b: Tree<P>)
  {
    Keys(m) == Keys(a) + Keys(b) && Pairs(m) <= Pairs(a) + Pairs(b)
  }

  /** `l` and `r` partition the nodes of `t` around `k`. */
  ghost predicate Parted<P>(t: Tree<P>, l: Tree<P>, r: Tree<P>, k: Key)
  {
    && Keys(l) + Keys(r) == Keys(t) && Pairs(l) + Pairs(r) == Pairs(t)
    && (forall y :: y in Keys(l) ==> y <= k) && (forall y :: y in Keys(r) ==> k < y)
  }

  /** Two keyed trees agree on priorities; roots with distinct keys have distinct priorities. */
  lemma DistinctRoots<P>(a: Tree<P>, b: Tree<P>, h: Key -> Prio)
    requires Keyed(a, h) && Keyed(b, h) && Injective(h)
    requires a.Node? && b.Node? && a.key != b.key
    ensures a.pry != b.pry
  {
    assert (a.key, a.pry) in Pairs(a);
    assert (b.key, b.pry) in Pairs(b);
  }

  /**
   * `split`, shared by the in-place split (`f` = `Id`) and the copying splits
   * (`f` makes the weak copy of a node on the path). A node whose key is not
   * above `key` goes to the left part, so for an absent key the parts hold the
   * keys below and above `key`. Both parts keep the order invariants and
   * together hold exactly the input's nodes.
   */
  function SplitWith<P>(t: Tree<P>, key: Key, f: P -> P): (r: (Tree<P>, Tree<P>))
    ensures Size(r.0) + Size(r.1) == Size(t)
  {
    match t
    case Nil => (Nil, Nil)
    case Node(p, k, d, l, rt) =>
      if key < k then
        var (ll, lr) := SplitWith(l, key, f);
        (ll, Node(p, k, f(d), lr, rt))
      else
        var (rl, rr) := SplitWith(rt, key, f);
        (Node(p, k, f(d), l, rl), rr)
  }

  /** Both parts of a split together hold exactly the input's nodes. */
  lemma {:induction false} SplitNodes<P>(t: Tree<P>, key: Key, f: P -> P)
    ensures Pairs(SplitWith(t, key, f).0) + Pairs(SplitWith(t, key, f).1) == Pairs(t)
    ensures Keys(SplitWith(t, key, f).0) + Keys(SplitWith(t, key, f).1) == Keys(t)
  {
    match t
    case Nil =>
    case Node(p, k, d, l, rt) =>
      if key < k {
        SplitNodes(l, key, f);
      } else {
        SplitNodes(rt, key, f);
      }
  }

  /** Both parts of a split of a heap are heaps. */
  lemma {:induction false} SplitHeap<P>(t: Tree<P>, key: Key, f: P -> P)
    requires Heap(t)
    ensures Heap(SplitWith(t, key, f).0) && Heap(SplitWith(t, key, f).1)
  {
    match t
    case Nil =>
    case Node(p, k, d, l, rt) =>
      if key < k {
        SplitHeap(l, key, f);
        SplitNodes(l, key, f);
        PriosBelow(Pairs(SplitWith(l, key, f).1), Pairs(l), {}, p);
      } else {
        SplitHeap(rt, key, f);
        SplitNodes(rt, key, f);
        PriosBelow(Pairs(SplitWith(rt, key, f).0), Pairs(rt), {}, p);
      }
  }

  /** Both parts of a split of a search tree are search trees, holding the keys up to `key` and above it. */
  lemma {:induction false} SplitBst<P>(t: Tree<P>, key: Key, f: P -> P)
    requires Bst(t)
    ensures Bst(SplitWith(t, key, f).0) && Bst(SplitWith(t, key, f).1)
    ensures forall x :: x in Keys(SplitWith(t, key, f).0) ==> x <= key
    ensures forall x :: x in Keys(SplitWith(t, key, f).1) ==> key < x
  {
    match t
    case Nil =>
    case Node(p, k, d, l, rt) =>
      if key < k {
        var (a, b) := SplitWith(l, key, f);
        SplitBst(l, key, f);
        SplitNodes(l, key, f);
        UpperJoin(p, k, f(d), l, b, rt, key);
      } else {
        var (a, b) := SplitWith(rt, key, f);
        SplitBst(rt, key, f);
        SplitNodes(rt, key, f);
        LowerJoin(p, k, f(d), l, rt, a, key);
      }
  }

  /** The upper part of a split that stops left of the root `k`: a search tree above `key`. */
  lemma UpperJoin<P>(p: Prio, k: Key, e: P, l: Tree<P>, b: Tree<P>, rt: Tree<P>, key: Key)
    requires key < k && Bst(b) && Bst(rt) && Keys(b) <= Keys(l)
    requires forall x :: x in Keys(l) ==> x < k
    requires forall x :: x in Keys(rt) ==> k < x
    requires forall x :: x in Keys(b) ==> key < x
    ensures Bst(Node(p, k, e, b, rt))
    ensures forall x :: x in Keys(Node(p, k, e, b, rt)) ==> key < x
  {
    assert Keys(Node(p, k, e, b, rt)) == Keys(b) + {k} + Keys(rt);
  }

  /** The lower part of a split that stops right of the root `k`: a search tree up to `key`. */
  lemma LowerJoin<P>(p: Prio, k: Key, e: P, l: Tree<P>, rt: Tree<P>, a: Tree<P>, key: Key)
    requires k <= key && Bst(l) && Bst(a) && Keys(a) <= Keys(rt)
    requires forall x :: x in Keys(l) ==> x < k
    requires forall x :: x in Keys(rt) ==> k < x
    requires forall x :: x in Keys(a) ==> x <= key
    ensures Bst(Node(p, k, e, l, a))
    ensures forall x :: x in Keys(Node(p, k, e, l, a)) ==> x <= key
  {
    assert Keys(Node(p, k, e, l, a)) == Keys(l) + {k} + Keys(a);
  }

  /**
   * Both parts of a split keep the order invariants; on a search tree they
   * hold the keys up to `key` and above it.
   */
  lemma SplitKeeps<P>(t: Tree<P>, key: Key, f: P -> P)
    ensures Heap(t) ==> Heap(SplitWith(t, key, f).0) && Heap(SplitWith(t, key, f).1)
    ensures Bst(t) ==> Bst(SplitWith(t, key, f).0) && Bst(SplitWith(t, key, f).1)
    ensures Bst(t) ==> Parted(t, SplitWith(t, key, f).0, SplitWith(t, key, f).1, key)
  {
    SplitNodes(t, key, f);
    if Heap(t) {
      SplitHeap(t, key, f);
    }
    if Bst(t) {
      SplitBst(t, key, f);
    }
  }

  /** Splitting a search tree at an absent key: strictly below and strictly above. */
  lemma SplitAbsent<P>(t: Tree<P>, key: Key, f: P -> P)
    requires Bst(t) && key !in Keys(t)
    ensures forall x :: x in Keys(SplitWith(t, key, f).0) ==> x < key
  {
    SplitKeeps(t, key, f);
  }

  /**
   * `process_concat` / `copy_concat`: join two treaps whose keys are ordered,
   * keeping the higher-priority root on top; `f` says what happens to the
   * payload of each root taken from the spines.
   */
  function ConcatWith<P>(l: Tree<P>, r: Tree<P>, f: P -> P): (t: Tree<P>)
    ensures Size(t) == Size(l) + Size(r)
    decreases Size(l) + Size(r)
  {
    if l == Nil then r
    else if r == Nil then l
    else if l.pry > r.pry then Node(l.pry, l.key, f(l.data), l.left, ConcatWith(l.right, r, f))
    else Node(r.pry, r.key, f(r.data), ConcatWith(l, r.left, f), r.right)
  }

  /** The concatenation holds exactly the nodes of both sides. */
  lemma {:induction false} ConcatNodes<P>(l: Tree<P>, r: Tree<P>, f: P -> P)
    ensures Keys(ConcatWith(l, r, f)) == Keys(l) + Keys(r)
    ensures Pairs(ConcatWith(l, r, f)) == Pairs(l) + Pairs(r)
    decreases Size(l) + Size(r)
  {
    if l == Nil || r == Nil {
    } else if l.pry > r.pry {
      ConcatNodes(l.right, r, f);
    } else {
      ConcatNodes(l, r.left, f);
    }
  }

  /** The concatenation of two heaps with no common priority is a heap. */
  lemma {:induction false} ConcatHeap<P>(l: Tree<P>, r: Tree<P>, f: P -> P)
    requires Heap(l) && Heap(r) && DistinctPrios(l, r)
    ensures Heap(ConcatWith(l, r, f))
    decreases Size(l) + Size(r)
  {
    if l == Nil || r == Nil {
    } else if l.pry > r.pry {
      ConcatHeap(l.right, r, f);
      ConcatNodes(l.right, r, f);
      assert (l.key, l.pry) in Pairs(l) && (r.key, r.pry) in Pairs(r);
      HeapTop(r);
    } else {
      ConcatHeap(l, r.left, f);
      ConcatNodes(l, r.left, f);
      assert (l.key, l.pry) in Pairs(l) && (r.key, r.pry) in Pairs(r);
      HeapTop(l);
    }
  }

  /** The concatenation of two search trees, every key of `l` below every key of `r`, is a search tree. */
  lemma {:induction false} ConcatBst<P>(l: Tree<P>, r: Tree<P>, f: P -> P)
    requires Bst(l) && Bst(r) && Before(l, r)
    ensures Bst(ConcatWith(l, r, f))
    decreases Size(l) + Size(r)
  {
    if l == Nil || r == Nil {
    } else if l.pry > r.pry {
      assert Keys(l) == Keys(l.left) + {l.key} + Keys(l.right);
      ConcatBst(l.right, r, f);
      ConcatNodes(l.right, r, f);
      assert l.key in Keys(l);
    } else {
      assert Keys(r) == Keys(r.left) + {r.key} + Keys(r.right);
      ConcatBst(l, r.left, f);
      ConcatNodes(l, r.left, f);
      assert r.key in Keys(r);
    }
  }

  /**
   * `merge`, shared by the treap's and the history treap's builders. On equal
   * keys the two roots become one node whose payload is `c(first, second)`
   * and the children are merged pairwise; otherwise the higher-priority root
   * stays on top and the other tree is split (in place) at its key.
   * Under a perfect hash the equal-key roots carry the same priority, so the
   * merged node takes it from the first root.
   */
  function Merge<P>(t0: Tree<P>, t1: Tree<P>, c: (P, P) -> P): Tree<P>
    decreases Size(t0) + Size(t1)
  {
    if t0 == Nil then t1
    else if t1 == Nil then t0
    else if t0.key == t1.key then
      Node(t0.pry, t0.key, c(t0.data, t1.data), Merge(t0.left, t1.left, c), Merge(t0.right, t1.right, c))
    else if t0.pry > t1.pry then
      var (l, r) := SplitWith(t1, t0.key, Id);
      Node(t0.pry, t0.key, t0.data, Merge(t0.left, l, c), Merge(t0.right, r, c))
    else
      var (l, r) := SplitWith(t0, t1.key, Id);
      Node(t1.pry, t1.key, t1.data, Merge(l, t1.left, c), Merge(r, t1.right, c))
  }

  /** Merging keeps every key of both trees and adds no (key, priority) pair. */
  lemma MergeNodes<P>(t0: Tree<P>, t1: Tree<P>, c: (P, P) -> P)
    ensures Joined(Merge(t0, t1, c), t0, t1)
  {
    MergeKeys(t0, t1, c);
    MergePairs(t0, t1, c);
  }

  lemma {:induction false} MergeKeys<P>(t0: Tree<P>, t1: Tree<P>, c: (P, P) -> P)
    ensures Keys(Merge(t0, t1, c)) == Keys(t0) + Keys(t1)
    decreases Size(t0) + Size(t1)
  {
    if t0 == Nil || t1 == Nil {
    } else if t0.key == t1.key {
      MergeKeys(t0.left, t1.left, c);
      MergeKeys(t0.right, t1.right, c);
    } else if t0.pry > t1.pry {
      var (l, r) := SplitWith(t1, t0.key, Id);
      SplitNodes(t1, t0.key, Id);
      MergeKeys(t0.left, l, c);
      MergeKeys(t0.right, r, c);
    } else {
      var (l, r) := SplitWith(t0, t1.key, Id);
      SplitNodes(t0, t1.key, Id);
      MergeKeys(l, t1.left, c);
      MergeKeys(r, t1.right, c);
    }
  }

  lemma {:induction false} MergePairs<P>(t0: Tree<P>, t1: Tree<P>, c: (P, P) -> P)
    ensures Pairs(Merge(t0, t1, c)) <= Pairs(t0) + Pairs(t1)
    decreases Size(t0) + Size(t1)
  {
    if t0 == Nil || t1 == Nil {
    } else if t0.key == t1.key {
      MergePairs(t0.left, t1.left, c);
      MergePairs(t0.right, t1.right, c);
    } else if t0.pry > t1.pry {
      var (l, r) := SplitWith(t1, t0.key, Id);
      SplitNodes(t1, t0.key, Id);
      MergePairs(t0.left, l, c);
      MergePairs(t0.right, r, c);
    } else {
      var (l, r) := SplitWith(t0, t1.key, Id);
      SplitNodes(t0, t1.key, Id);
      MergePairs(l, t1.left, c);
      MergePairs(r, t1.right, c);
    }
  }

  /** Merging two treaps keyed by a perfect hash gives a treap. */
  lemma {:induction false} MergeTreap<P>(t0: Tree<P>, t1: Tree<P>, c: (P, P) -> P, h: Key -> Prio)
    requires Treap(t0, h) && Treap(t1, h) && Injective(h)
    ensures Treap(Merge(t0, t1, c), h)
    decreases Size(t0) + Size(t1)
  {
    if t0 == Nil || t1 == Nil {
    } else if t0.key == t1.key {
      TreapChildren(t0, h);
      TreapChildren(t1, h);
      var lm, rm := Merge(t0.left, t1.left, c), Merge(t0.right, t1.right, c);
      MergeTreap(t0.left, t1.left, c, h);
      MergeTreap(t0.right, t1.right, c, h);
      MergeNodes(t0.left, t1.left, c);
      MergeNodes(t0.right, t1.right, c);
      MergeSameStep(t0, t1, lm, rm, c(t0.data, t1.data), h);
      assert Merge(t0, t1, c) == Node(t0.pry, t0.key, c(t0.data, t1.data), lm, rm);
    } else if t0.pry > t1.pry {
      TreapChildren(t0, h);
      var (l, r) := SplitWith(t1, t0.key, Id);
      SplitTreap(t1, t0.key, h);
      var lm, rm := Merge(t0.left, l, c), Merge(t0.right, r, c);
      MergeTreap(t0.left, l, c, h);
      MergeTreap(t0.right, r, c, h);
      MergeNodes(t0.left, l, c);
      MergeNodes(t0.right, r, c);
      MergeOverStep(t0, t1, l, r, lm, rm, t0.data, h);
      assert Merge(t0, t1, c) == Node(t0.pry, t0.key, t0.data, lm, rm);
    } else {
      DistinctRoots(t0, t1, h);
      TreapChildren(t1, h);
      var (l, r) := SplitWith(t0, t1.key, Id);
      SplitTreap(t0, t1.key, h);
      var lm, rm := Merge(l, t1.left, c), Merge(r, t1.right, c);
      MergeTreap(l, t1.left, c, h);
      MergeTreap(r, t1.right, c, h);
      MergeNodes(l, t1.left, c);
      MergeNodes(r, t1.right, c);
      MergeUnderStep(t0, t1, l, r, lm, rm, t1.data, h);
      assert Merge(t0, t1, c) == Node(t1.pry, t1.key, t1.data, lm, rm);
    }
  }

  /** Both halves of a split treap are treaps, and they part its nodes. */
  lemma SplitTreap<P>(t: Tree<P>, key: Key, h: Key -> Prio)
    requires Treap(t, h)
    ensures Treap(SplitWith(t, key, Id).0, h) && Treap(SplitWith(t, key, Id).1, h)
    ensures Parted(t, SplitWith(t, key, Id).0, SplitWith(t, key, Id).1, key)
  {
    SplitKeeps(t, key, Id);
  }


  /** The equal-key step of `merge`: the children are merged pairwise under one root. */
  lemma MergeSameStep<P>(t0: Tree<P>, t1: Tree<P>, lm: Tree<P>, rm: Tree<P>, x: P, h: Key -> Prio)
    requires Treap(t0, h) && Treap(t1, h) && t0.Node? && t1.Node? && t0.key == t1.key
    requires Treap(lm, h) && Joined(lm, t0.left, t1.left)
    requires Treap(rm, h) && Joined(rm, t0.right, t1.right)
    ensures Treap(Node(t0.pry, t0.key, x, lm, rm), h)
  {
    assert (t0.key, t0.pry) in Pairs(t0);
    assert (t1.key, t1.pry) in Pairs(t1);
    NodeTreap(t0.pry, t0.key, x, lm, rm, h);
  }

  /** The step of `merge` where the first root has the higher priority and the second tree is split under it. */
  lemma MergeOverStep<P>(t0: Tree<P>, t1: Tree<P>, l: Tree<P>, r: Tree<P>, lm: Tree<P>, rm: Tree<P>, x: P, h: Key -> Prio)
    requires Treap(t0, h) && Treap(t1, h) && t0.Node? && t1.Node? && t0.pry > t1.pry
    requires Parted(t1, l, r, t0.key)
    requires Treap(lm, h) && Joined(lm, t0.left, l)
    requires Treap(rm, h) && Joined(rm, t0.right, r)
    ensures Treap(Node(t0.pry, t0.key, x, lm, rm), h)
  {
    assert (t0.key, t0.pry) in Pairs(t0);
    Outside(t1, t0.key, t0.pry, h);
    var lt, rt := t0.left, t0.right;
    assert Bst(t0) && Heap(t0);
    assert forall x :: x in Keys(lt) ==> x < t0.key;
    assert forall x :: x in Keys(rt) ==> t0.key < x;
    assert forall q :: q in Pairs(lt) ==> q.1 < t0.pry;
    assert forall q :: q in Pairs(rt) ==> q.1 < t0.pry;
    assert t0.pry == h(t0.key);
    KeysBelow(Keys(lm), Keys(lt), Keys(l), t0.key);
    KeysAbove(Keys(rm), Keys(rt), Keys(r), t0.key);
    PriosBelow(Pairs(lm), Pairs(lt), Pairs(l), t0.pry);
    PriosBelow(Pairs(rm), Pairs(rt), Pairs(r), t0.pry);
    NodeTreap(t0.pry, t0.key, x, lm, rm, h);
  }

  /** The step of `merge` where the second root has the higher priority and the first tree is split under it. */
  lemma MergeUnderStep<P>(t0: Tree<P>, t1: Tree<P>, l: Tree<P>, r: Tree<P>, lm: Tree<P>, rm: Tree<P>, x: P, h: Key -> Prio)
    requires Treap(t0, h) && Treap(t1, h) && t0.Node? && t1.Node? && t0.pry < t1.pry
    requires Parted(t0, l, r, t1.key)
    requires Treap(lm, h) && Joined(lm, l, t1.left)
    requires Treap(rm, h) && Joined(rm, r, t1.right)
    ensures Treap(Node(t1.pry, t1.key, x, lm, rm), h)
  {
    assert (t1.key, t1.pry) in Pairs(t1);
    Outside(t0, t1.key, t1.pry, h);
    var lt, rt := t1.left, t1.right;
    assert Bst(t1) && Heap(t1);
    assert forall x :: x in Keys(lt) ==> x < t1.key;
    assert forall x :: x in Keys(rt) ==> t1.key < x;
    assert forall q :: q in Pairs(lt) ==> q.1 < t1.pry;
    assert forall q :: q in Pairs(rt) ==> q.1 < t1.pry;
    assert t1.pry == h(t1.key);
    KeysBelow(Keys(lm), Keys(lt), Keys(l), t1.key);
    KeysAbove(Keys(rm), Keys(rt), Keys(r), t1.key);
    PriosBelow(Pairs(lm), Pairs(lt), Pairs(l), t1.pry);
    PriosBelow(Pairs(rm), Pairs(rt), Pairs(r), t1.pry);
    NodeTreap(t1.pry, t1.key, x, lm, rm, h);
  }

  /** Every key of a union of parts below `k` is below `k`. */
  lemma KeysBelow(s: set<Key>, a: set<Key>, b: set<Key>, k: Key)
    requires s <= a + b && k !in b
    requires forall x :: x in a ==> x < k
    requires forall x :: x in b ==> x <= k
    ensures forall x :: x in s ==> x < k
  {
  }

  /** Every key of a union of parts above `k` is above `k`. */
  lemma KeysAbove(s: set<Key>, a: set<Key>, b: set<Key>, k: Key)
    requires s <= a + b
    requires forall x :: x in a ==> k < x
    requires forall x :: x in b ==> k < x
    ensures forall x :: x in s ==> k < x
  {
  }

  /** Every priority of a union of parts below `p` is below `p`. */
  lemma PriosBelow(s: set<(Key, Prio)>, a: set<(Key, Prio)>, b: set<(Key, Prio)>, p: Prio)
    requires s <= a + b
    requires forall q :: q in a ==> q.1 < p
    requires forall q :: q in b ==> q.1 < p
    ensures forall q :: q in s ==> q.1 < p
  {
  }

  /** A key hashed above a treap's root priority is not in it, and every priority in it is below that hash. */
  lemma Outside<P>(t: Tree<P>, k: Key, p: Prio, h: Key -> Prio)
    requires Heap(t) && Keyed(t, h) && t.Node? && t.pry < p && p == h(k)
    ensures k !in Keys(t)
    ensures forall q :: q in Pairs(t) ==> q.1 < p
  {
    HeapTop(t);
    KeyedMembers(t, h);
  }

  /** Concatenating ordered treaps keyed by a perfect hash gives a treap. */
  lemma ConcatTreap<P>(l: Tree<P>, r: Tree<P>, f: P -> P, h: Key -> Prio)
    requires Treap(l, h) && Treap(r, h) && Injective(h) && Before(l, r)
    ensures Treap(ConcatWith(l, r, f), h)
  {
    forall x, y | x in Pairs(l) && y in Pairs(r) ensures x.1 != y.1 {
      KeysOfPairs(l);
      KeysOfPairs(r);
    }
    ConcatNodes(l, r, f);
    ConcatHeap(l, r, f);
    ConcatBst(l, r, f);
  }
}
