/**
 * Counting the keys of a tree through a weight on the payload: a key stands
 * in the multiset as many times as the weight of its node. The per-key
 * history treap reads its contents this way (the first value after a
 * `build`, the value as of a version after a batch), so the facts here say
 * how splitting, concatenating and merging move weight around.
 */
module Weighted {
  import opened Shape

  function Weight<P>(t: Tree<P>, w: P -> nat): multiset<Key>
  {
    match t
    case Nil => multiset{}
    case Node(_, k, d, l, r) => Weight(l, w) + Copies(k, w(d)) + Weight(r, w)
  }

  /** The payloads of all nodes. */
  ghost function Payloads<P>(t: Tree<P>): set<P>
  {
    match t
    case Nil => {}
    case Node(_, _, d, l, r) => Payloads(l) + {d} + Payloads(r)
  }

  /** Every payload of `t` satisfies `ok`. */
  ghost predicate Every<P>(t: Tree<P>, ok: P -> bool)
  {
    match t
    case Nil => true
    case Node(_, _, d, l, r) => ok(d) && Every(l, ok) && Every(r, ok)
  }

  /** `f` leaves the weight of every payload of `t` as it is. */
  ghost predicate Keeps<P>(t: Tree<P>, f: P -> P, w: P -> nat)
  {
    match t
    case Nil => true
    case Node(_, _, d, l, r) => w(f(d)) == w(d) && Keeps(l, f, w) && Keeps(r, f, w)
  }

  /** Combining a payload of `t0` with one of `t1` adds their weights. */
  ghost predicate Additive<P>(t0: Tree<P>, t1: Tree<P>, c: (P, P) -> P, w: P -> nat)
  {
    forall d0, d1 :: d0 in Payloads(t0) && d1 in Payloads(t1) ==> w(c(d0, d1)) == w(d0) + w(d1)
  }

  /** Combining a payload of `t0` with one of `t1` gives a payload satisfying `ok`. */
  ghost predicate Closed<P>(t0: Tree<P>, t1: Tree<P>, c: (P, P) -> P, ok: P -> bool)
  {
    forall d0, d1 :: d0 in Payloads(t0) && d1 in Payloads(t1) ==> ok(c(d0, d1))
  }

  /** A key with no node has weight 0. */
  lemma {:induction false} WeightAbsent<P>(t: Tree<P>, w: P -> nat, k: Key)
    requires k !in Keys(t)
    ensures Weight(t, w)[k] == 0
  {
    match t
    case Nil =>
    case Node(_, _, _, l, r) =>
      WeightAbsent(l, w, k);
      WeightAbsent(r, w, k);
  }

  /** The weight of a key in a search tree is that of its node. */
  lemma {:induction false} WeightAtRoot<P>(t: Tree<P>, w: P -> nat)
    requires Bst(t) && t.Node?
    ensures Weight(t, w)[t.key] == w(t.data)
  {
    WeightAbsent(t.left, w, t.key);
    WeightAbsent(t.right, w, t.key);
  }

  /** The identity keeps every weight. */
  lemma {:induction false} KeepsId<P>(t: Tree<P>, w: P -> nat)
    ensures Keeps(t, Id, w)
  {
    match t
    case Nil =>
    case Node(_, _, _, l, r) =>
      KeepsId(l, w);
      KeepsId(r, w);
  }

  /** A split keeps the weight of every key when `f` does. */
  lemma {:induction false} SplitWeight<P>(t: Tree<P>, key: Key, f: P -> P, w: P -> nat)
    requires Keeps(t, f, w)
    ensures Weight(SplitWith(t, key, f).0, w) + Weight(SplitWith(t, key, f).1, w) == Weight(t, w)
  {
    match t
    case Nil =>
    case Node(p, k, d, l, rt) =>
      if key < k {
        SplitWeight(l, key, f, w);
      } else {
        SplitWeight(rt, key, f, w);
      }
  }

  /** The parts of a split satisfy what `t` does, when `f` keeps it. */
  lemma {:induction false} SplitEvery<P>(t: Tree<P>, key: Key, f: P -> P, ok: P -> bool)
    requires Every(t, ok) && forall d :: ok(d) ==> ok(f(d))
    ensures Every(SplitWith(t, key, f).0, ok) && Every(SplitWith(t, key, f).1, ok)
  {
    match t
    case Nil =>
    case Node(p, k, d, l, rt) =>
      if key < k {
        SplitEvery(l, key, f, ok);
      } else {
        SplitEvery(rt, key, f, ok);
      }
  }

  /** An in-place split only moves payloads. */
  lemma {:induction false} SplitPayloads<P>(t: Tree<P>, key: Key)
    ensures Payloads(SplitWith(t, key, Id).0) <= Payloads(t)
    ensures Payloads(SplitWith(t, key, Id).1) <= Payloads(t)
  {
    match t
    case Nil =>
    case Node(p, k, d, l, rt) =>
      if key < k {
        SplitPayloads(l, key);
      } else {
        SplitPayloads(rt, key);
      }
  }

  /** A concatenation keeps the weight of every key when `f` does. */
  lemma {:induction false} ConcatWeight<P>(l: Tree<P>, r: Tree<P>, f: P -> P, w: P -> nat)
    requires Keeps(l, f, w) && Keeps(r, f, w)
    ensures Weight(ConcatWith(l, r, f), w) == Weight(l, w) + Weight(r, w)
    decreases Size(l) + Size(r)
  {
    if l == Nil || r == Nil {
    } else if l.pry > r.pry {
      ConcatWeight(l.right, r, f, w);
    } else {
      ConcatWeight(l, r.left, f, w);
    }
  }

  /** The concatenation satisfies what both sides do, when `f` keeps it. */
  lemma {:induction false} ConcatEvery<P>(l: Tree<P>, r: Tree<P>, f: P -> P, ok: P -> bool)
    requires Every(l, ok) && Every(r, ok) && forall d :: ok(d) ==> ok(f(d))
    ensures Every(ConcatWith(l, r, f), ok)
    decreases Size(l) + Size(r)
  {
    if l == Nil || r == Nil {
    } else if l.pry > r.pry {
      ConcatEvery(l.right, r, f, ok);
    } else {
      ConcatEvery(l, r.left, f, ok);
    }
  }

  /** Narrowing both trees keeps additivity. */
  lemma AdditiveSub<P>(t0: Tree<P>, t1: Tree<P>, a0: Tree<P>, a1: Tree<P>, c: (P, P) -> P, w: P -> nat)
    requires Additive(t0, t1, c, w) && Payloads(a0) <= Payloads(t0) && Payloads(a1) <= Payloads(t1)
    ensures Additive(a0, a1, c, w)
  {
  }

  /** Merging adds the weights of both trees when the combination of equal keys does. */
  lemma {:induction false} MergeWeight<P>(t0: Tree<P>, t1: Tree<P>, c: (P, P) -> P, w: P -> nat)
    requires Additive(t0, t1, c, w)
    ensures Weight(Merge(t0, t1, c), w) == Weight(t0, w) + Weight(t1, w)
    decreases Size(t0) + Size(t1), 1
  {
    if t0 == Nil || t1 == Nil {
    } else if t0.key == t1.key {
      MergeWeightSame(t0, t1, c, w);
    } else if t0.pry > t1.pry {
      MergeWeightOver(t0, t1, c, w);
    } else {
      MergeWeightUnder(t0, t1, c, w);
    }
  }

  lemma {:induction false} MergeWeightSame<P>(t0: Tree<P>, t1: Tree<P>, c: (P, P) -> P, w: P -> nat)
    requires Additive(t0, t1, c, w) && t0.Node? && t1.Node? && t0.key == t1.key
    ensures Weight(Merge(t0, t1, c), w) == Weight(t0, w) + Weight(t1, w)
    decreases Size(t0) + Size(t1), 0
  {
    var ml, mr := Merge(t0.left, t1.left, c), Merge(t0.right, t1.right, c);
    var d := c(t0.data, t1.data);
    assert Merge(t0, t1, c) == Node(t0.pry, t0.key, d, ml, mr);
    AdditiveSub(t0, t1, t0.left, t1.left, c, w);
    AdditiveSub(t0, t1, t0.right, t1.right, c, w);
    MergeWeight(t0.left, t1.left, c, w);
    MergeWeight(t0.right, t1.right, c, w);
    var c0, c1 := Copies(t0.key, w(t0.data)), Copies(t0.key, w(t1.data));
    assert t0.data in Payloads(t0) && t1.data in Payloads(t1);
    assert Copies(t0.key, w(d)) == c0 + c1;
    Regroup(Weight(t0.left, w), Weight(t1.left, w), c0, c1, Weight(t0.right, w), Weight(t1.right, w));
  }

  lemma {:induction false} MergeWeightOver<P>(t0: Tree<P>, t1: Tree<P>, c: (P, P) -> P, w: P -> nat)
    requires Additive(t0, t1, c, w) && t0.Node? && t1.Node? && t0.key != t1.key && t0.pry > t1.pry
    ensures Weight(Merge(t0, t1, c), w) == Weight(t0, w) + Weight(t1, w)
    decreases Size(t0) + Size(t1), 0
  {
    var (l, r) := SplitWith(t1, t0.key, Id);
    var ml, mr := Merge(t0.left, l, c), Merge(t0.right, r, c);
    assert Merge(t0, t1, c) == Node(t0.pry, t0.key, t0.data, ml, mr);
    KeepsId(t1, w);
    SplitWeight(t1, t0.key, Id, w);
    SplitPayloads(t1, t0.key);
    AdditiveSub(t0, t1, t0.left, l, c, w);
    AdditiveSub(t0, t1, t0.right, r, c, w);
    MergeWeight(t0.left, l, c, w);
    MergeWeight(t0.right, r, c, w);
    Regroup(Weight(t0.left, w), Weight(l, w), Copies(t0.key, w(t0.data)), multiset{}, Weight(t0.right, w), Weight(r, w));
  }

  lemma {:induction false} MergeWeightUnder<P>(t0: Tree<P>, t1: Tree<P>, c: (P, P) -> P, w: P -> nat)
    requires Additive(t0, t1, c, w) && t0.Node? && t1.Node? && t0.key != t1.key && !(t0.pry > t1.pry)
    ensures Weight(Merge(t0, t1, c), w) == Weight(t0, w) + Weight(t1, w)
    decreases Size(t0) + Size(t1), 0
  {
    var (l, r) := SplitWith(t0, t1.key, Id);
    var ml, mr := Merge(l, t1.left, c), Merge(r, t1.right, c);
    assert Merge(t0, t1, c) == Node(t1.pry, t1.key, t1.data, ml, mr);
    KeepsId(t0, w);
    SplitWeight(t0, t1.key, Id, w);
    SplitPayloads(t0, t1.key);
    AdditiveSub(t0, t1, l, t1.left, c, w);
    AdditiveSub(t0, t1, r, t1.right, c, w);
    MergeWeight(l, t1.left, c, w);
    MergeWeight(r, t1.right, c, w);
    Regroup(Weight(l, w), Weight(t1.left, w), multiset{}, Copies(t1.key, w(t1.data)), Weight(r, w), Weight(t1.right, w));
  }

  /** Merging keeps a property of payloads when combining equal keys does. */
  lemma {:induction false} MergeEvery<P>(t0: Tree<P>, t1: Tree<P>, c: (P, P) -> P, ok: P -> bool)
    requires Every(t0, ok) && Every(t1, ok) && Closed(t0, t1, c, ok)
    ensures Every(Merge(t0, t1, c), ok)
    decreases Size(t0) + Size(t1)
  {
    if t0 == Nil || t1 == Nil {
    } else if t0.key == t1.key {
      assert t0.data in Payloads(t0) && t1.data in Payloads(t1);
      MergeEvery(t0.left, t1.left, c, ok);
      MergeEvery(t0.right, t1.right, c, ok);
    } else if t0.pry > t1.pry {
      var (l, r) := SplitWith(t1, t0.key, Id);
      SplitEvery(t1, t0.key, Id, ok);
      SplitPayloads(t1, t0.key);
      MergeEvery(t0.left, l, c, ok);
      MergeEvery(t0.right, r, c, ok);
    } else {
      var (l, r) := SplitWith(t0, t1.key, Id);
      SplitEvery(t0, t1.key, Id, ok);
      SplitPayloads(t0, t1.key);
      MergeEvery(l, t1.left, c, ok);
      MergeEvery(r, t1.right, c, ok);
    }
  }

  /** Every payload of a tree in which every payload satisfies `ok` satisfies it. */
  lemma {:induction false} EveryPayload<P>(t: Tree<P>, ok: P -> bool)
    requires Every(t, ok)
    ensures forall d :: d in Payloads(t) ==> ok(d)
  {
    match t
    case Nil =>
    case Node(_, _, _, l, r) =>
      EveryPayload(l, ok);
      EveryPayload(r, ok);
  }

  /** A weaker property of payloads holds wherever a stronger one does. */
  lemma {:induction false} EveryWeaker<P>(t: Tree<P>, strong: P -> bool, weak: P -> bool)
    requires Every(t, strong) && forall d :: strong(d) ==> weak(d)
    ensures Every(t, weak)
  {
    match t
    case Nil =>
    case Node(_, _, _, l, r) =>
      EveryWeaker(l, strong, weak);
      EveryWeaker(r, strong, weak);
  }

  /** In a search tree a key's weight and membership are decided on the side of the root it lies on. */
  lemma WeightAtKey<P>(t: Tree<P>, w: P -> nat, k: Key)
    requires Bst(t) && t.Node?
    ensures k < t.key ==> Weight(t, w)[k] == Weight(t.left, w)[k] && Weight(t.right, w)[k] == 0
    ensures k < t.key ==> (k in Keys(t) <==> k in Keys(t.left)) && k !in Keys(t.right)
    ensures t.key < k ==> Weight(t, w)[k] == Weight(t.right, w)[k] && Weight(t.left, w)[k] == 0
    ensures t.key < k ==> (k in Keys(t) <==> k in Keys(t.right)) && k !in Keys(t.left)
    ensures k == t.key ==> Weight(t, w)[k] == w(t.data) && Weight(t.left, w)[k] == 0 && Weight(t.right, w)[k] == 0
    ensures k == t.key ==> k in Keys(t) && k !in Keys(t.left) && k !in Keys(t.right)
  {
    assert k in Keys(t) <==> k in Keys(t.left) || k == t.key || k in Keys(t.right);
    if k < t.key {
      assert k !in Keys(t.right);
      WeightAbsent(t.right, w, k);
    } else if t.key < k {
      assert k !in Keys(t.left);
      WeightAbsent(t.left, w, k);
    } else {
      WeightAbsent(t.left, w, k);
      WeightAbsent(t.right, w, k);
    }
  }
}
