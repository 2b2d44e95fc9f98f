/**
 * `search_delete`: removes one copy of a key from a published version by
 * path copying. A counter above 1 is decremented in a copy; a node whose
 * counter is 1 disappears and its two subtrees are concatenated, copying
 * only the nodes on their facing spines.
 */
module TreapDelete {
  import opened Shape
  import opened TreapNode
  import opened TreapInsert

  /**
   * `process_concat(ver, t_l, t_r)`: joins two treaps whose keys are ordered,
   * copying (stamped `ver`) each spine node it takes from either side.
   */
  function ProcessConcat(ver: nat, l: Tree<Item>, r: Tree<Item>): (t: Tree<Item>)
  {
    ConcatWith(l, r, StampWith(ver))
  }

  /** `process_concat` keeps every copy of every key and every key's priority. */
  lemma ConcatKeeps(ver: nat, l: Tree<Item>, r: Tree<Item>)
    ensures Content(ProcessConcat(ver, l, r)) == Content(l) + Content(r)
    ensures Keys(ProcessConcat(ver, l, r)) == Keys(l) + Keys(r)
    ensures Pairs(ProcessConcat(ver, l, r)) == Pairs(l) + Pairs(r)
  {
    ConcatContent(l, r, StampWith(ver));
    ConcatNodes(l, r, StampWith(ver));
  }

  /** `process_concat` keeps the treap when the keys of `l` are all below those of `r`. */
  lemma ConcatKeepsTreap(ver: nat, l: Tree<Item>, r: Tree<Item>, h: Key -> Prio)
    requires Treap(l, h) && Treap(r, h) && Injective(h) && Before(l, r)
    ensures Treap(ProcessConcat(ver, l, r), h)
  {
    ConcatTreap(l, r, StampWith(ver), h);
  }

  /** `process_concat` creates only nodes stamped `ver`, shares the rest and keeps computed sums. */
  lemma {:induction false} ConcatShares(ver: nat, l: Tree<Item>, r: Tree<Item>, t: Tree<Item>)
    requires Subtrees(l) <= Subtrees(t) && Subtrees(r) <= Subtrees(t)
    ensures SharesWith(ProcessConcat(ver, l, r), t, ver)
    ensures Memo(l) && Memo(r) ==> Memo(ProcessConcat(ver, l, r))
    decreases Size(l) + Size(r)
  {
    SharesSelf(l, ver);
    SharesSelf(r, ver);
    if l == Nil {
      SharesWider(r, r, t, ver);
    } else if r == Nil {
      SharesWider(l, l, t, ver);
    } else {
      SubtreesOfChildren(l);
      SubtreesOfChildren(r);
      if Memo(l) {
        MemoChildren(l);
      }
      if Memo(r) {
        MemoChildren(r);
      }
      if l.pry > r.pry {
        ConcatShares(ver, l.right, r, t);
        SharesSelf(l.left, ver);
        SharesWider(l.left, l.left, t, ver);
        SharesNode(l.pry, l.key, Stamp(ver, l.data), l.left, ProcessConcat(ver, l.right, r), t, ver);
      } else {
        ConcatShares(ver, l, r.left, t);
        SharesSelf(r.right, ver);
        SharesWider(r.right, r.right, t, ver);
        SharesNode(r.pry, r.key, Stamp(ver, r.data), ProcessConcat(ver, l, r.left), r.right, t, ver);
      }
    }
  }

  /**
   * `search_delete(ver, t_past, pry, key)`. A counter is decremented only
   * when it is above 1, so every counter stays at least 1.
   */
  function SearchDelete(ver: nat, t: Tree<Item>, pry: Prio, key: Key): (r: Tree<Item>)
  {
    match t
    case Nil => Nil
    case Node(p, k, d, l, rt) =>
      if p > pry then
        if key < k then Node(p, k, Stamp(ver, d), SearchDelete(ver, l, pry, key), rt)
        else Node(p, k, Stamp(ver, d), l, SearchDelete(ver, rt, pry, key))
      else if k == key then
        if d.val == 1 then ProcessConcat(ver, l, rt)
        else Node(p, k, Stamp(ver, d).(val := d.val - 1), l, rt)
      else
        t
  }

  /** `search_delete` keeps every key but `key`, and adds no key and no priority. */
  lemma {:induction false} DeleteKeys(ver: nat, t: Tree<Item>, pry: Prio, key: Key)
    ensures Keys(SearchDelete(ver, t, pry, key)) <= Keys(t)
    ensures Pairs(SearchDelete(ver, t, pry, key)) <= Pairs(t)
    ensures forall k :: k in Keys(t) && k != key ==> k in Keys(SearchDelete(ver, t, pry, key))
  {
    match t
    case Nil =>
    case Node(p, k, d, l, rt) =>
      if p > pry {
        if key < k {
          DeleteKeys(ver, l, pry, key);
        } else {
          DeleteKeys(ver, rt, pry, key);
        }
      } else if k == key && d.val == 1 {
        ConcatKeeps(ver, l, rt);
      }
  }

  /**
   * With priority = hash(key) under a perfect hash, `search_delete` removes
   * exactly one copy of `key`, and nothing when it is absent.
   */
  lemma {:induction false} DeleteContent(ver: nat, t: Tree<Item>, key: Key, h: Key -> Prio)
    requires Treap(t, h) && Injective(h)
    ensures Content(SearchDelete(ver, t, h(key), key)) == Content(t) - multiset{key}
  {
    var pry := h(key);
    match t
    case Nil =>
    case Node(p, k, d, l, rt) =>
      assert (k, p) in Pairs(t);
      ContentKeys(l);
      ContentKeys(rt);
      if p > pry {
        if key < k {
          DeleteContent(ver, l, key, h);
          RemoveAside(Content(l), Copies(k, d.val) + Content(rt), key);
        } else {
          DeleteContent(ver, rt, key, h);
          RemoveAside(Content(rt), Content(l) + Copies(k, d.val), key);
        }
      } else if k == key {
        if d.val == 1 {
          ConcatKeeps(ver, l, rt);
        }
      } else {
        AbsentBelow(t, h, key);
        ContentKeys(t);
      }
  }

  /** Removing a copy of `key` from one part of a union where the other part has none. */
  lemma RemoveAside(a: multiset<Key>, b: multiset<Key>, key: Key)
    requires key !in b
    ensures (a - multiset{key}) + b == (a + b) - multiset{key}
  {
  }

  /** With priority = hash(key) under a perfect hash, `search_delete` keeps the treap. */
  lemma {:induction false} DeleteTreap(ver: nat, t: Tree<Item>, key: Key, h: Key -> Prio)
    requires Treap(t, h) && Injective(h)
    ensures Treap(SearchDelete(ver, t, h(key), key), h)
  {
    var pry := h(key);
    match t
    case Nil =>
    case Node(p, k, d, l, rt) =>
      assert (k, p) in Pairs(t);
      if p > pry {
        if key < k {
          DeleteTreap(ver, l, key, h);
          DeleteKeys(ver, l, pry, key);
          NodeTreap(p, k, Stamp(ver, d), SearchDelete(ver, l, pry, key), rt, h);
        } else {
          DeleteTreap(ver, rt, key, h);
          DeleteKeys(ver, rt, pry, key);
          NodeTreap(p, k, Stamp(ver, d), l, SearchDelete(ver, rt, pry, key), h);
        }
      } else if k == key {
        if d.val == 1 {
          ConcatKeepsTreap(ver, l, rt, h);
        } else {
          NodeTreap(p, k, Stamp(ver, d).(val := d.val - 1), l, rt, h);
        }
      }
  }

  /** The old version is never written, and computed sums stay correct. */
  lemma {:induction false} DeleteShares(ver: nat, t: Tree<Item>, pry: Prio, key: Key)
    ensures SharesWith(SearchDelete(ver, t, pry, key), t, ver)
    ensures Memo(t) ==> Memo(SearchDelete(ver, t, pry, key))
  {
    SharesSelf(t, ver);
    match t
    case Nil =>
    case Node(p, k, d, l, rt) =>
      SubtreesOfChildren(t);
      SharesSelf(l, ver);
      SharesSelf(rt, ver);
      SharesWider(l, l, t, ver);
      SharesWider(rt, rt, t, ver);
      if Memo(t) {
        MemoChildren(t);
      }
      if p > pry {
        if key < k {
          DeleteShares(ver, l, pry, key);
          SharesWider(SearchDelete(ver, l, pry, key), l, t, ver);
          SharesNode(p, k, Stamp(ver, d), SearchDelete(ver, l, pry, key), rt, t, ver);
        } else {
          DeleteShares(ver, rt, pry, key);
          SharesWider(SearchDelete(ver, rt, pry, key), rt, t, ver);
          SharesNode(p, k, Stamp(ver, d), l, SearchDelete(ver, rt, pry, key), t, ver);
        }
      } else if k == key {
        if d.val == 1 {
          ConcatShares(ver, l, rt, t);
        } else {
          SharesNode(p, k, Stamp(ver, d).(val := d.val - 1), l, rt, t, ver);
        }
      }
  }
}
