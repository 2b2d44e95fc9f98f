/**
 * Read-only queries on a per-version treap: the point lookup `find` and the
 * range-sum `range_estimate`, which descends the two boundary paths of the
 * range and reads the cached sum of every subtree lying wholly inside it.
 */
module TreapQuery {
  import opened Shape
  import opened TreapNode

  /** `find`: walks down from the root following the search order. */
  method Find(t: Tree<Item>, key: Key) returns (r: Tree<Item>)
    ensures r == Nil || (r.key == key && r in Subtrees(t))
    ensures Bst(t) ==> (r.Node? <==> key in Keys(t))
    ensures Bst(t) && r.Node? ==> r.data.val == Content(t)[key]
  {
    var cur := t;
    SubtreesOwn(t);
    while cur != Nil
      invariant cur in Subtrees(t)
      invariant Bst(t) ==> Bst(cur) && (key in Keys(t) <==> key in Keys(cur))
      invariant Bst(t) ==> Content(t)[key] == Content(cur)[key]
      decreases cur
    {
      if key == cur.key {
        if Bst(t) {
          ContentAtRoot(cur);
        }
        return cur;
      }
      SubtreesClosed(t, cur);
      ContentKeys(cur.left);
      ContentKeys(cur.right);
      cur := if key < cur.key then cur.left else cur.right;
    }
    return Nil;
  }

  /** The sum of the counters of the nodes whose key lies in `[lo, hi]`. */
  function RangeCount(t: Tree<Item>, lo: Key, hi: Key): nat
  {
    match t
    case Nil => 0
    case Node(_, k, d, l, r) => RangeCount(l, lo, hi) + (if lo <= k <= hi then d.val else 0) + RangeCount(r, lo, hi)
  }

  /**
   * `range_estimate(t, l, r, d)`. `OpenClose` means every key of the subtree
   * is already known to be at most `hi`, `CloseOpen` that every key is at
   * least `lo`, `CloseClose` both, so the cached sum answers at once.
   */
  function RangeEstimate(t: Tree<Item>, lo: Key, hi: Key, d: Cover): nat
  {
    match t
    case Nil => 0
    case Node(_, k, x, l, r) =>
      match d
      case OpenOpen =>
        if hi < k then RangeEstimate(l, lo, hi, d)
        else if lo > k then RangeEstimate(r, lo, hi, d)
        else RangeEstimate(l, lo, hi, OpenClose) + x.val + RangeEstimate(r, lo, hi, CloseOpen)
      case OpenClose =>
        if lo > k then RangeEstimate(r, lo, hi, d)
        else RangeEstimate(l, lo, hi, d) + x.val + RangeEstimate(r, lo, hi, CloseClose)
      case CloseOpen =>
        if hi < k then RangeEstimate(l, lo, hi, d)
        else RangeEstimate(l, lo, hi, CloseClose) + x.val + RangeEstimate(r, lo, hi, d)
      case CloseClose => x.aug
  }

  /** The wrapper `range_estimate(t, l, r)` starts with nothing known. */
  function RangeQuery(t: Tree<Item>, lo: Key, hi: Key): (s: nat)
    ensures Bst(t) && FullyAug(t) ==> s == RangeCount(t, lo, hi)
    ensures hi < lo ==> s == 0
  {
    var s := RangeEstimate(t, lo, hi, OpenOpen);
    assert Bst(t) && FullyAug(t) ==> s == RangeCount(t, lo, hi) by {
      if Bst(t) && FullyAug(t) {
        RangeEstimateCorrect(t, lo, hi, OpenOpen);
      }
    }
    assert hi < lo ==> s == 0 by {
      if hi < lo {
        EmptyRange(t, lo, hi);
      }
    }
    s
  }

  /** A subtree wholly inside the range contributes all its counters. */
  lemma {:induction false} RangeCountAll(t: Tree<Item>, lo: Key, hi: Key)
    requires forall k :: k in Keys(t) ==> lo <= k <= hi
    ensures RangeCount(t, lo, hi) == Sum(t)
  {
    match t
    case Nil =>
    case Node(_, k, _, l, r) =>
      assert Keys(t) == Keys(l) + {k} + Keys(r);
      RangeCountAll(l, lo, hi);
      RangeCountAll(r, lo, hi);
  }

  /** A subtree wholly outside the range contributes nothing. */
  lemma {:induction false} RangeCountNone(t: Tree<Item>, lo: Key, hi: Key)
    requires forall k :: k in Keys(t) ==> k < lo || hi < k
    ensures RangeCount(t, lo, hi) == 0
  {
    match t
    case Nil =>
    case Node(_, k, _, l, r) =>
      assert Keys(t) == Keys(l) + {k} + Keys(r);
      RangeCountNone(l, lo, hi);
      RangeCountNone(r, lo, hi);
  }

  /**
   * On a search tree whose cached sums are all correct, every cover state
   * that tells the truth about the subtree yields the exact range sum.
   */
  lemma {:induction false} RangeEstimateCorrect(t: Tree<Item>, lo: Key, hi: Key, d: Cover)
    requires Bst(t) && FullyAug(t) && Covered(t, lo, hi, d)
    ensures RangeEstimate(t, lo, hi, d) == RangeCount(t, lo, hi)
  {
    match t
    case Nil =>
    case Node(_, k, x, l, r) =>
      assert Keys(t) == Keys(l) + {k} + Keys(r);
      assert forall y :: y in Keys(l) ==> y < k;
      assert forall y :: y in Keys(r) ==> k < y;
      match d
      case OpenOpen =>
        if hi < k {
          RangeEstimateCorrect(l, lo, hi, d);
          RangeCountNone(r, lo, hi);
        } else if lo > k {
          RangeEstimateCorrect(r, lo, hi, d);
          RangeCountNone(l, lo, hi);
        } else {
          RangeEstimateCorrect(l, lo, hi, OpenClose);
          RangeEstimateCorrect(r, lo, hi, CloseOpen);
        }
      case OpenClose =>
        if lo > k {
          RangeEstimateCorrect(r, lo, hi, d);
          RangeCountNone(l, lo, hi);
        } else {
          RangeEstimateCorrect(l, lo, hi, d);
          RangeEstimateCorrect(r, lo, hi, CloseClose);
        }
      case CloseOpen =>
        if hi < k {
          RangeEstimateCorrect(l, lo, hi, d);
          RangeCountNone(r, lo, hi);
        } else {
          RangeEstimateCorrect(l, lo, hi, CloseClose);
          RangeEstimateCorrect(r, lo, hi, d);
        }
      case CloseClose =>
        RangeCountAll(t, lo, hi);
  }

  /** An empty range (`lo > hi`) gives 0 on any tree, ordered or not. */
  lemma {:induction false} EmptyRange(t: Tree<Item>, lo: Key, hi: Key)
    requires hi < lo
    ensures RangeEstimate(t, lo, hi, OpenOpen) == 0
  {
    match t
    case Nil =>
    case Node(_, k, _, l, r) =>
      if hi < k {
        EmptyRange(l, lo, hi);
      } else {
        EmptyRange(r, lo, hi);
      }
  }

  /** The range sum of a single key is that key's multiplicity. */
  lemma {:induction false} PointRange(t: Tree<Item>, key: Key)
    requires Bst(t)
    ensures RangeCount(t, key, key) == Content(t)[key]
  {
    match t
    case Nil =>
    case Node(_, k, _, l, r) =>
      PointRange(l, key);
      PointRange(r, key);
  }
}
