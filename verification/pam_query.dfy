/**
 * Read-only queries on the per-key-history treap at a version `v`: the
 * history lookup `find_value`, the point lookup `find` and the range sum
 * `range_estimate`, which reads a subtree's cached sum only when the subtree
 * lies inside the range and its watermark is not above `v`.
 */
module PamQuery {
  import opened Shape
  import opened Weighted
  import opened PamNode
  import opened PamAugment

  /**
   * `find_value`: 0 before the first entry; otherwise the value of the first
   * entry whose successor is after `v`, or the current value. On a history
   * in version order that is the counter as of `v`.
   */
  method FindValue(vals: History, v: nat) returns (r: nat)
    ensures v < vals[0].ver ==> r == 0
    ensures Ascending(vals) ==> r == ValueAt(vals, v)
  {
    if v < vals[0].ver {
      if Ascending(vals) {
        ValueAtNone(vals, v);
      }
      return 0;
    }
    var i := 0;
    while i < |vals| - 1
      invariant 0 <= i <= |vals| - 1 && vals[i].ver <= v
    {
      if v < vals[i + 1].ver {
        if Ascending(vals) {
          ValueAtIndex(vals, i, v);
        }
        return vals[i].val;
      }
      i := i + 1;
    }
    return vals[|vals| - 1].val;
  }

  /**
   * `find`: walks down from the root following the search order and reads
   * the history of the node holding `k`; 0 when there is none. On a search
   * tree of ordered histories it is the counter of `k` as of `v`.
   */
  method Find(t: Tree<PItem>, v: nat, k: Key) returns (r: nat)
    ensures Bst(t) && Every(t, InOrder()) ==> r == Weight(t, At(v))[k]
    ensures Bst(t) && k !in Keys(t) ==> r == 0
  {
    var cur := t;
    while cur != Nil
      invariant Bst(t) ==> Bst(cur) && Weight(t, At(v))[k] == Weight(cur, At(v))[k]
      invariant Bst(t) ==> (k in Keys(t) <==> k in Keys(cur))
      invariant Bst(t) && Every(t, InOrder()) ==> Every(cur, InOrder())
      decreases cur
    {
      if k == cur.key {
        if Bst(t) {
          WeightAtRoot(cur, At(v));
        }
        r := FindValue(cur.data.vals, v);
        return;
      }
      if Bst(t) {
        if k < cur.key {
          WeightAbsent(cur.right, At(v), k);
        } else {
          WeightAbsent(cur.left, At(v), k);
        }
      }
      cur := if k < cur.key then cur.left else cur.right;
    }
    if Bst(t) {
      WeightAbsent(t, At(v), k);
    }
    return 0;
  }

  /** The sum of the counters as of `v` of the nodes whose key lies in `[lo, hi]`. */
  function RangeSum(t: Tree<PItem>, v: nat, lo: Key, hi: Key): nat
  {
    match t
    case Nil => 0
    case Node(_, k, d, l, r) =>
      RangeSum(l, v, lo, hi) + (if lo <= k <= hi then ValueAt(d.vals, v) else 0) + RangeSum(r, v, lo, hi)
  }

  /**
   * `range_estimate(t, v, l, r, d)`. Inside the range (`CloseClose`) a node
   * whose watermark is set and not above `v` answers with its cached sum;
   * every other node met adds its counter as of `v`.
   */
  function RangeEstimate(t: Tree<PItem>, v: nat, lo: Key, hi: Key, d: Cover): nat
  {
    match t
    case Nil => 0
    case Node(_, k, x, l, r) =>
      match d
      case OpenOpen =>
        if hi < k then RangeEstimate(l, v, lo, hi, d)
        else if lo > k then RangeEstimate(r, v, lo, hi, d)
        else RangeEstimate(l, v, lo, hi, OpenClose) + ValueAt(x.vals, v) + RangeEstimate(r, v, lo, hi, CloseOpen)
      case OpenClose =>
        if lo > k then RangeEstimate(r, v, lo, hi, d)
        else RangeEstimate(l, v, lo, hi, d) + ValueAt(x.vals, v) + RangeEstimate(r, v, lo, hi, CloseClose)
      case CloseOpen =>
        if hi < k then RangeEstimate(l, v, lo, hi, d)
        else RangeEstimate(l, v, lo, hi, CloseClose) + ValueAt(x.vals, v) + RangeEstimate(r, v, lo, hi, d)
      case CloseClose =>
        if x.vstat.Stat? && x.vstat.ver <= v then x.aug
        else RangeEstimate(l, v, lo, hi, d) + ValueAt(x.vals, v) + RangeEstimate(r, v, lo, hi, d)
  }

  /**
   * The wrapper `range_estimate(t, v, l, r)` starts with nothing known. On a
   * search tree whose set watermarks and sums are correct it is the range
   * sum as of `v`, whatever nodes are still transient.
   */
  function RangeQuery(t: Tree<PItem>, v: nat, lo: Key, hi: Key): (s: nat)
    ensures Bst(t) && Memo(t) ==> s == RangeSum(t, v, lo, hi)
    ensures hi < lo ==> s == 0
  {
    var s := RangeEstimate(t, v, lo, hi, OpenOpen);
    assert Bst(t) && Memo(t) ==> s == RangeSum(t, v, lo, hi) by {
      if Bst(t) && Memo(t) {
        RangeEstimateCorrect(t, v, lo, hi, OpenOpen);
      }
    }
    assert hi < lo ==> s == 0 by {
      if hi < lo {
        EmptyRange(t, v, lo, hi);
      }
    }
    s
  }

  /** A subtree wholly inside the range and settled by `v` contributes all its current values. */
  lemma {:induction false} RangeSumAll(t: Tree<PItem>, v: nat, lo: Key, hi: Key)
    requires forall k :: k in Keys(t) ==> lo <= k <= hi
    requires Every(t, SettledBy(v))
    ensures RangeSum(t, v, lo, hi) == SumLast(t)
  {
    match t
    case Nil =>
    case Node(_, k, d, l, r) =>
      assert Keys(t) == Keys(l) + {k} + Keys(r);
      ValueAtSettled(d.vals, v);
      RangeSumAll(l, v, lo, hi);
      RangeSumAll(r, v, lo, hi);
  }

  /** A subtree wholly outside the range contributes nothing. */
  lemma {:induction false} RangeSumNone(t: Tree<PItem>, v: nat, lo: Key, hi: Key)
    requires forall k :: k in Keys(t) ==> k < lo || hi < k
    ensures RangeSum(t, v, lo, hi) == 0
  {
    match t
    case Nil =>
    case Node(_, k, _, l, r) =>
      assert Keys(t) == Keys(l) + {k} + Keys(r);
      RangeSumNone(l, v, lo, hi);
      RangeSumNone(r, v, lo, hi);
  }

  /**
   * On a search tree whose set watermarks and sums are all correct, every
   * cover state that tells the truth about the subtree yields the exact
   * range sum as of `v`.
   */
  lemma {:induction false} RangeEstimateCorrect(t: Tree<PItem>, v: nat, lo: Key, hi: Key, d: Cover)
    requires Bst(t) && Memo(t) && Covered(t, lo, hi, d)
    ensures RangeEstimate(t, v, lo, hi, d) == RangeSum(t, v, lo, hi)
  {
    match t
    case Nil =>
    case Node(_, k, x, l, r) =>
      assert Keys(t) == Keys(l) + {k} + Keys(r);
      assert forall y :: y in Keys(l) ==> y < k;
      assert forall y :: y in Keys(r) ==> k < y;
      MemoChildren(t);
      match d
      case OpenOpen =>
        if hi < k {
          RangeEstimateCorrect(l, v, lo, hi, d);
          RangeSumNone(r, v, lo, hi);
        } else if lo > k {
          RangeEstimateCorrect(r, v, lo, hi, d);
          RangeSumNone(l, v, lo, hi);
        } else {
          RangeEstimateCorrect(l, v, lo, hi, OpenClose);
          RangeEstimateCorrect(r, v, lo, hi, CloseOpen);
        }
      case OpenClose =>
        if lo > k {
          RangeEstimateCorrect(r, v, lo, hi, d);
          RangeSumNone(l, v, lo, hi);
        } else {
          RangeEstimateCorrect(l, v, lo, hi, d);
          RangeEstimateCorrect(r, v, lo, hi, CloseClose);
        }
      case CloseOpen =>
        if hi < k {
          RangeEstimateCorrect(l, v, lo, hi, d);
          RangeSumNone(r, v, lo, hi);
        } else {
          RangeEstimateCorrect(l, v, lo, hi, CloseClose);
          RangeEstimateCorrect(r, v, lo, hi, d);
        }
      case CloseClose =>
        if x.vstat.Stat? && x.vstat.ver <= v {
          MaxLastSettled(t, v);
          RangeSumAll(t, v, lo, hi);
        } else {
          RangeEstimateCorrect(l, v, lo, hi, d);
          RangeEstimateCorrect(r, v, lo, hi, d);
        }
  }

  /** An empty range (`lo > hi`) gives 0 on any tree, ordered or not. */
  lemma {:induction false} EmptyRange(t: Tree<PItem>, v: nat, lo: Key, hi: Key)
    requires hi < lo
    ensures RangeEstimate(t, v, lo, hi, OpenOpen) == 0
  {
    match t
    case Nil =>
    case Node(_, k, _, l, r) =>
      if hi < k {
        EmptyRange(l, v, lo, hi);
      } else {
        EmptyRange(r, v, lo, hi);
      }
  }

  /** The range sum of a single key is that key's counter as of `v`. */
  lemma {:induction false} PointRange(t: Tree<PItem>, v: nat, key: Key)
    requires Bst(t)
    ensures RangeSum(t, v, key, key) == Weight(t, At(v))[key]
  {
    match t
    case Nil =>
    case Node(_, k, _, l, r) =>
      PointRange(l, v, key);
      PointRange(r, v, key);
  }

  /** The number of copies in `m` of the keys from `lo` to `hi`. */
  function Tally(m: multiset<Key>, lo: int, hi: int): nat
    decreases hi - lo
  {
    if hi < lo then 0 else (if 0 <= lo < 0x1_0000_0000_0000_0000 then m[lo as Key] else 0) + Tally(m, lo + 1, hi)
  }

  /** Counting a range is additive over multiset union. */
  lemma {:induction false} TallyAdds(a: multiset<Key>, b: multiset<Key>, lo: int, hi: int)
    ensures Tally(a + b, lo, hi) == Tally(a, lo, hi) + Tally(b, lo, hi)
    decreases hi - lo
  {
    if lo <= hi {
      TallyAdds(a, b, lo + 1, hi);
    }
  }

  /** The copies of one key count in a range exactly when the key lies in it. */
  lemma {:induction false} TallyCopies(k: Key, c: nat, lo: int, hi: int)
    ensures Tally(Copies(k, c), lo, hi) == if lo <= k as int <= hi then c else 0
    decreases hi - lo
  {
    if lo <= hi {
      TallyCopies(k, c, lo + 1, hi);
    }
  }

  /** The range sum as of `v` counts the copies in the range of the tree's counters as of `v`. */
  lemma {:induction false} RangeSumTally(t: Tree<PItem>, v: nat, lo: Key, hi: Key)
    ensures RangeSum(t, v, lo, hi) == Tally(Weight(t, At(v)), lo as int, hi as int)
  {
    match t
    case Nil =>
      assert Tally(multiset{}, lo as int, hi as int) == 0 by {
        TallyCopies(lo, 0, lo as int, hi as int);
      }
    case Node(_, k, d, l, r) =>
      RangeSumTally(l, v, lo, hi);
      RangeSumTally(r, v, lo, hi);
      TallyAdds(Weight(l, At(v)) + Copies(k, ValueAt(d.vals, v)), Weight(r, At(v)), lo as int, hi as int);
      TallyAdds(Weight(l, At(v)), Copies(k, ValueAt(d.vals, v)), lo as int, hi as int);
      TallyCopies(k, ValueAt(d.vals, v), lo as int, hi as int);
  }
}
