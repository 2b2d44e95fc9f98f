/**
 * `search_insert`: adds one copy of a key to a published version by path
 * copying. Every node on the search path is replaced by a weak copy stamped
 * with the new version; everything off the path is shared with the old tree,
 * which is never written.
 */
module TreapInsert {
  import opened Shape
  import opened TreapNode

  /** The payload map of the copying split: weak copies stamped `ver`. */
  function StampWith(ver: nat): (f: Item -> Item)
    ensures forall d :: f(d) == Stamp(ver, d)
  {
    d => Stamp(ver, d)
  }

  /**
   * `split_copy(ver, t, key)`: splits like `split`, but every node on the
   * path is a fresh copy stamped `ver` and the rest is shared.
   */
  function SplitCopy(ver: nat, t: Tree<Item>, key: Key): (Tree<Item>, Tree<Item>)
  {
    SplitWith(t, key, StampWith(ver))
  }

  /**
   * The copying split keeps every copy of every key and every priority, keeps
   * both sides treaps, and separates the keys below `key` from those above.
   */
  lemma SplitCopyKeeps(ver: nat, t: Tree<Item>, key: Key)
    ensures Content(SplitCopy(ver, t, key).0) + Content(SplitCopy(ver, t, key).1) == Content(t)
    ensures Pairs(SplitCopy(ver, t, key).0) + Pairs(SplitCopy(ver, t, key).1) == Pairs(t)
    ensures Keys(SplitCopy(ver, t, key).0) + Keys(SplitCopy(ver, t, key).1) == Keys(t)
    ensures Bst(t) && Heap(t) ==> Bst(SplitCopy(ver, t, key).0) && Heap(SplitCopy(ver, t, key).0)
    ensures Bst(t) && Heap(t) ==> Bst(SplitCopy(ver, t, key).1) && Heap(SplitCopy(ver, t, key).1)
    ensures Bst(t) && key !in Keys(t) ==> forall x :: x in Keys(SplitCopy(ver, t, key).0) ==> x < key
    ensures Bst(t) && key !in Keys(t) ==> forall x :: x in Keys(SplitCopy(ver, t, key).1) ==> key < x
  {
    SplitContent(t, key, StampWith(ver));
    SplitNodes(t, key, StampWith(ver));
    SplitKeeps(t, key, StampWith(ver));
    if Bst(t) && key !in Keys(t) {
      SplitAbsent(t, key, StampWith(ver));
    }
  }

  /** The copying split creates only nodes stamped `ver`, shares the rest, and keeps computed sums. */
  lemma {:induction false} SplitCopyShares(ver: nat, t: Tree<Item>, key: Key)
    ensures SharesWith(SplitCopy(ver, t, key).0, t, ver) && SharesWith(SplitCopy(ver, t, key).1, t, ver)
    ensures Memo(t) ==> Memo(SplitCopy(ver, t, key).0) && Memo(SplitCopy(ver, t, key).1)
  {
    match t
    case Nil =>
    case Node(p, k, d, l, rt) =>
      SubtreesOfChildren(t);
      SharesSelf(l, ver);
      SharesSelf(rt, ver);
      if Memo(t) {
        MemoChildren(t);
      }
      if key < k {
        SplitCopyShares(ver, l, key);
        var (a, b) := SplitCopy(ver, l, key);
        SharesWider(a, l, t, ver);
        SharesWider(b, l, t, ver);
        SharesWider(rt, rt, t, ver);
        SharesNode(p, k, Stamp(ver, d), b, rt, t, ver);
      } else {
        SplitCopyShares(ver, rt, key);
        var (a, b) := SplitCopy(ver, rt, key);
        SharesWider(a, rt, t, ver);
        SharesWider(b, rt, t, ver);
        SharesWider(l, l, t, ver);
        SharesNode(p, k, Stamp(ver, d), l, a, t, ver);
      }
  }

  /** `process_deploy`: a new node for `key` over the two parts of the old subtree. */
  function ProcessDeploy(ver: nat, t: Tree<Item>, pry: Prio, key: Key): Tree<Item>
  {
    var (l, rt) := SplitCopy(ver, t, key);
    Node(pry, key, Item(ver, 1, AugUninitialized), l, rt)
  }

  /** The deployed node adds one copy of `key`, with priority `pry`, to the old subtree. */
  lemma DeployKeeps(ver: nat, t: Tree<Item>, pry: Prio, key: Key)
    ensures Content(ProcessDeploy(ver, t, pry, key)) == Content(t) + multiset{key}
    ensures Pairs(ProcessDeploy(ver, t, pry, key)) == Pairs(t) + {(key, pry)}
    ensures Keys(ProcessDeploy(ver, t, pry, key)) == Keys(t) + {key}
  {
    SplitCopyKeeps(ver, t, key);
  }

  /** `search_insert(ver, t_past, pry, key)`. */
  function SearchInsert(ver: nat, t: Tree<Item>, pry: Prio, key: Key): (r: Tree<Item>)
  {
    match t
    case Nil => MakeNode(ver, pry, key)
    case Node(p, k, d, l, rt) =>
      if p > pry then
        if key < k then Node(p, k, Stamp(ver, d), SearchInsert(ver, l, pry, key), rt)
        else Node(p, k, Stamp(ver, d), l, SearchInsert(ver, rt, pry, key))
      else if k == key then
        Node(p, k, Stamp(ver, d).(val := d.val + 1), l, rt)
      else
        ProcessDeploy(ver, t, pry, key)
  }

  /** `search_insert` adds `key` to the key set and at most the pair `(key, pry)` to the priorities. */
  lemma {:induction false} InsertKeys(ver: nat, t: Tree<Item>, pry: Prio, key: Key)
    ensures Keys(SearchInsert(ver, t, pry, key)) == Keys(t) + {key}
    ensures Pairs(t) <= Pairs(SearchInsert(ver, t, pry, key)) <= Pairs(t) + {(key, pry)}
  {
    match t
    case Nil =>
    case Node(p, k, d, l, rt) =>
      if p > pry {
        if key < k {
          InsertKeys(ver, l, pry, key);
        } else {
          InsertKeys(ver, rt, pry, key);
        }
      } else if k != key {
        DeployKeeps(ver, t, pry, key);
      }
  }

  /** `search_insert` adds exactly one copy of `key` and keeps every other key's counter. */
  lemma {:induction false} InsertContent(ver: nat, t: Tree<Item>, pry: Prio, key: Key)
    ensures Content(SearchInsert(ver, t, pry, key)) == Content(t) + multiset{key}
  {
    match t
    case Nil =>
    case Node(p, k, d, l, rt) =>
      if p > pry {
        if key < k {
          InsertContent(ver, l, pry, key);
        } else {
          InsertContent(ver, rt, pry, key);
        }
      } else if k != key {
        DeployKeeps(ver, t, pry, key);
      }
  }

  /**
   * The old version is never written: the new root shares every node it
   * did not create for `ver`, and computed sums stay correct.
   */
  lemma {:induction false} InsertShares(ver: nat, t: Tree<Item>, pry: Prio, key: Key)
    ensures SharesWith(SearchInsert(ver, t, pry, key), t, ver)
    ensures Memo(t) ==> Memo(SearchInsert(ver, t, pry, key))
  {
    match t
    case Nil =>
    case Node(p, k, d, l, rt) =>
      SubtreesOfChildren(t);
      SharesSelf(l, ver);
      SharesSelf(rt, ver);
      SharesWider(l, l, t, ver);
      SharesWider(rt, rt, t, ver);
      if Memo(t) {
        MemoChildren(t);
      }
      if p > pry {
        if key < k {
          InsertShares(ver, l, pry, key);
          SharesWider(SearchInsert(ver, l, pry, key), l, t, ver);
          SharesNode(p, k, Stamp(ver, d), SearchInsert(ver, l, pry, key), rt, t, ver);
        } else {
          InsertShares(ver, rt, pry, key);
          SharesWider(SearchInsert(ver, rt, pry, key), rt, t, ver);
          SharesNode(p, k, Stamp(ver, d), l, SearchInsert(ver, rt, pry, key), t, ver);
        }
      } else if k == key {
        SharesNode(p, k, Stamp(ver, d).(val := d.val + 1), l, rt, t, ver);
      } else {
        SplitCopyShares(ver, t, key);
        var (a, b) := SplitCopy(ver, t, key);
        SharesNode(pry, key, Item(ver, 1, AugUninitialized), a, b, t, ver);
      }
  }

  /** Going down to the left: the rebuilt node is a treap once the new left subtree is one. */
  lemma InsertTreapLeft(ver: nat, t: Tree<Item>, key: Key, h: Key -> Prio)
    requires Treap(t, h) && t.Node? && h(key) < t.pry && key < t.key
    requires Treap(SearchInsert(ver, t.left, h(key), key), h)
    ensures Treap(Node(t.pry, t.key, Stamp(ver, t.data), SearchInsert(ver, t.left, h(key), key), t.right), h)
  {
    TreapChildren(t, h);
    InsertKeys(ver, t.left, h(key), key);
    NodeTreap(t.pry, t.key, Stamp(ver, t.data), SearchInsert(ver, t.left, h(key), key), t.right, h);
  }

  /** Going down to the right: the key is above the root's, whose priority is its hash and so not the new key's. */
  lemma InsertTreapRight(ver: nat, t: Tree<Item>, key: Key, h: Key -> Prio)
    requires Treap(t, h) && t.Node? && h(key) < t.pry && t.key <= key
    requires Treap(SearchInsert(ver, t.right, h(key), key), h)
    ensures Treap(Node(t.pry, t.key, Stamp(ver, t.data), t.left, SearchInsert(ver, t.right, h(key), key)), h)
  {
    TreapChildren(t, h);
    assert t.key < key;
    InsertKeys(ver, t.right, h(key), key);
    NodeTreap(t.pry, t.key, Stamp(ver, t.data), t.left, SearchInsert(ver, t.right, h(key), key), h);
  }

  /** With priority = hash(key) under a perfect hash, `search_insert` keeps the treap. */
  lemma {:induction false} InsertTreap(ver: nat, t: Tree<Item>, key: Key, h: Key -> Prio)
    requires Treap(t, h) && Injective(h)
    ensures Treap(SearchInsert(ver, t, h(key), key), h)
  {
    var pry := h(key);
    match t
    case Nil =>
    case Node(p, k, d, l, rt) =>
      assert (k, p) in Pairs(t);
      if p > pry {
        if key < k {
          InsertTreap(ver, l, key, h);
          InsertTreapLeft(ver, t, key, h);
        } else {
          InsertTreap(ver, rt, key, h);
          InsertTreapRight(ver, t, key, h);
        }
      } else if k == key {
        NodeTreap(p, k, Stamp(ver, d).(val := d.val + 1), l, rt, h);
      } else {
        AbsentBelow(t, h, key);
        SplitCopyKeeps(ver, t, key);
        var (a, b) := SplitCopy(ver, t, key);
        NodeTreap(pry, key, Item(ver, 1, AugUninitialized), a, b, h);
      }
  }
}
