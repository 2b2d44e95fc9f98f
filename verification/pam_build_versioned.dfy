/**
 * Building the transient treap of one batch: element `i` of the batch is
 * stamped with version `ver + i`, and `merge_versioned` joins the treaps of
 * the two halves, appending the later half's history of an equal key after
 * the earlier half's, its values raised by the earlier current value. The
 * counter of a key as of `v` is then the number of its occurrences among the
 * elements stamped at or before `v`.
 */
module PamBuildVersioned {
  import opened Shape
  import opened Weighted
  import opened PamNode
  import opened PamAugment

  /** The history `b`, which comes after `a`, appended to `a` counting on from `a`'s current value. */
  function Appended(a: History, b: History): (c: History)
    ensures |c| == |a| + |b| && c[..|a|] == a && Last(c).ver == Last(b).ver
    ensures Last(c).val == Last(a).val + Last(b).val
  {
    a + Shift(b, Last(a).val)
  }

  /**
   * `merge_values`: a fresh array holding the entries of `a`, then those of
   * `b` raised by the current value of `a`.
   */
  method MergeValues(a: History, b: History) returns (vals: History)
    ensures vals == Appended(a, b)
  {
    var c := new ValVer[|a| + |b|](_ => ValVer(0, 0));
    for i := 0 to |a|
      invariant forall j :: 0 <= j < i ==> c[j] == a[j]
    {
      c[i] := a[i];
    }
    var base := a[|a| - 1].val;
    for i := 0 to |b|
      invariant forall j :: 0 <= j < |a| ==> c[j] == a[j]
      invariant forall j :: 0 <= j < i ==> c[|a| + j] == ValVer(base + b[j].val, b[j].ver)
    {
      c[|a| + i] := ValVer(base + b[i].val, b[i].ver);
    }
    vals := c[..];
    assert vals == a + Shift(b, base);
  }

  /**
   * When every version of `b` is at least the current version of `a` (the
   * source's precondition "values in t_0 are always earlier"), the appended
   * history counts, at every version, the counters of both.
   */
  lemma AppendedAt(a: History, b: History, v: nat)
    requires forall i :: 0 <= i < |b| ==> Last(a).ver <= b[i].ver
    ensures ValueAt(Appended(a, b), v) == ValueAt(a, v) + ValueAt(b, v)
  {
    if Last(a).ver <= v {
      ValueAtSettled(a, v);
      ValueAtAppend(a, b, Last(a).val, v);
    } else {
      ValueAtPrefix(a, Shift(b, Last(a).val), v);
      ValueAtNone(b, v);
    }
  }

  /** A node of a batch treap: transient, its history ordered, positive and stamped within `[lo, hi)`. */
  ghost predicate FreshItem(d: PItem, lo: nat, hi: nat)
  {
    d.vstat == Unset && Ascending(d.vals) && Positive(d.vals) && VersionsIn(d.vals, lo, hi)
  }

  /** `FreshItem` as a property of payloads. */
  ghost function Fresh(lo: nat, hi: nat): (ok: PItem -> bool)
    ensures forall d :: ok(d) == FreshItem(d, lo, hi)
  {
    (d: PItem) => FreshItem(d, lo, hi)
  }

  /** The equal-key case of `merge_versioned`: the first node takes the appended history. */
  function Concatenated(d0: PItem, d1: PItem): (d: PItem)
    ensures d.vals == Appended(d0.vals, d1.vals) && d.vstat == d0.vstat && d.aug == d0.aug
  {
    d0.(vals := Appended(d0.vals, d1.vals))
  }

  /** Appending a history stamped in `[mid, hi)` to one stamped in `[lo, mid)` gives a batch history of `[lo, hi)`. */
  lemma ConcatenatedFresh(d0: PItem, d1: PItem, lo: nat, mid: nat, hi: nat)
    requires Fresh(lo, mid)(d0) && Fresh(mid, hi)(d1)
    ensures Fresh(lo, hi)(Concatenated(d0, d1))
  {
    var a, b := d0.vals, d1.vals;
    var c := Appended(a, b);
    assert c == a + Shift(b, Last(a).val);
    forall i, j | 0 <= i < j < |c|
      ensures c[i].ver < c[j].ver
    {
      if j < |a| {
      } else if i < |a| {
        assert a[i].ver < mid <= b[j - |a|].ver;
      } else {
        assert c[i].ver == b[i - |a|].ver;
      }
    }
  }

  /**
   * `merge_versioned`: the treaps of an earlier and a later part of a batch
   * relinked into one, the later history of an equal key appended to the
   * earlier one.
   */
  function MergeVersioned(t0: Tree<PItem>, t1: Tree<PItem>): Tree<PItem>
  {
    Merge(t0, t1, Concatenated)
  }

  /** The merged treap has every key of both parts and no other. */
  lemma MergeVersionedKeys(t0: Tree<PItem>, t1: Tree<PItem>, k: Key)
    ensures k in Keys(MergeVersioned(t0, t1)) <==> k in Keys(t0) || k in Keys(t1)
  {
    MergeNodes(t0, t1, Concatenated);
  }

  /** Merging a part stamped in `[lo, mid)` with one stamped in `[mid, hi)` gives nodes stamped in `[lo, hi)`. */
  lemma MergeVersionedFresh(t0: Tree<PItem>, t1: Tree<PItem>, lo: nat, mid: nat, hi: nat)
    requires lo <= mid <= hi && Every(t0, Fresh(lo, mid)) && Every(t1, Fresh(mid, hi))
    ensures Every(MergeVersioned(t0, t1), Fresh(lo, hi))
  {
    EveryPayload(t0, Fresh(lo, mid));
    EveryPayload(t1, Fresh(mid, hi));
    forall d0, d1 | d0 in Payloads(t0) && d1 in Payloads(t1)
      ensures Fresh(lo, hi)(Concatenated(d0, d1))
    {
      ConcatenatedFresh(d0, d1, lo, mid, hi);
    }
    EveryWeaker(t0, Fresh(lo, mid), Fresh(lo, hi));
    EveryWeaker(t1, Fresh(mid, hi), Fresh(lo, hi));
    MergeEvery(t0, t1, Concatenated, Fresh(lo, hi));
  }

  /** At every version the merged counters add up those of both parts. */
  lemma MergeVersionedAt(t0: Tree<PItem>, t1: Tree<PItem>, lo: nat, mid: nat, hi: nat, v: nat)
    requires lo <= mid <= hi && Every(t0, Fresh(lo, mid)) && Every(t1, Fresh(mid, hi))
    ensures Weight(MergeVersioned(t0, t1), At(v)) == Weight(t0, At(v)) + Weight(t1, At(v))
  {
    EveryPayload(t0, Fresh(lo, mid));
    EveryPayload(t1, Fresh(mid, hi));
    forall d0, d1 | d0 in Payloads(t0) && d1 in Payloads(t1)
      ensures At(v)(Concatenated(d0, d1)) == At(v)(d0) + At(v)(d1)
    {
      assert Last(d0.vals).ver < mid;
      AppendedAt(d0.vals, d1.vals, v);
    }
    MergeWeight(t0, t1, Concatenated, At(v));
  }

  /** Where `build_versioned` cuts a batch of `n > 1` elements: both parts are non-empty. */
  function Half(n: nat): (m: nat)
    requires n > 1
    ensures 0 < m < n
  {
    n / 2
  }

  /**
   * `build_versioned(ver, n, elems)`: one transient node per distinct key,
   * whose history steps up by one at the version of each of its occurrences.
   */
  function BuildVersioned(ver: nat, elems: seq<Key>, h: Key -> Prio): Tree<PItem>
    decreases |elems|
  {
    if |elems| == 0 then Nil
    else if |elems| == 1 then MakeHashedNode(ver, elems[0], h)
    else
      var m := Half(|elems|);
      MergeVersioned(BuildVersioned(ver, elems[..m], h), BuildVersioned(ver + m, elems[m..], h))
  }

  /** The nodes of a batch of `hi - ver` elements are transient, ordered, positive and stamped in `[ver, hi)`. */
  lemma {:induction false} BuildVersionedFresh(ver: nat, elems: seq<Key>, hi: nat, h: Key -> Prio)
    requires ver + |elems| == hi
    ensures Every(BuildVersioned(ver, elems, h), Fresh(ver, hi))
    decreases |elems|
  {
    var n := |elems|;
    if n > 1 {
      var m := Half(n);
      var a, b := elems[..m], elems[m..];
      BuildVersionedFresh(ver, a, ver + m, h);
      BuildVersionedFresh(ver + m, b, hi, h);
      MergeVersionedFresh(BuildVersioned(ver, a, h), BuildVersioned(ver + m, b, h), ver, ver + m, hi);
    }
  }

  /** How many of `n` elements stamped from `ver` on are stamped at or before `v`. */
  function Clip(ver: nat, n: nat, v: nat): (c: nat)
    ensures c <= n
    ensures c == 0 <==> v < ver || n == 0
  {
    if v < ver then 0 else if v - ver + 1 < n then v - ver + 1 else n
  }

  /**
   * The counters of the batch treap as of `v` count exactly the elements
   * stamped at or before `v`: none before the batch, all of them from its
   * last version on.
   */
  lemma {:induction false} BuildVersionedAt(ver: nat, elems: seq<Key>, h: Key -> Prio, v: nat)
    ensures Weight(BuildVersioned(ver, elems, h), At(v)) == multiset(elems[..Clip(ver, |elems|, v)])
    decreases |elems|
  {
    var n := |elems|;
    if n == 1 {
      SingleElementAt(ver, elems, h, v);
    } else if n > 1 {
      var m := Half(n);
      var a, b := elems[..m], elems[m..];
      BuildVersionedAt(ver, a, h, v);
      BuildVersionedAt(ver + m, b, h, v);
      BuildVersionedSplitAt(ver, elems, h, v, m);
      ClipSplit(ver, elems, m, v);
    }
  }

  /** A batch of one element counts it from its version on. */
  lemma SingleElementAt(ver: nat, elems: seq<Key>, h: Key -> Prio, v: nat)
    requires |elems| == 1
    ensures Weight(BuildVersioned(ver, elems, h), At(v)) == multiset(elems[..Clip(ver, 1, v)])
  {
    assert BuildVersioned(ver, elems, h) == MakeHashedNode(ver, elems[0], h);
    SingleAt(ver, elems[0], h, v);
    if ver <= v {
      assert elems[..Clip(ver, 1, v)] == [elems[0]];
    }
  }

  /** A single element stamped `ver` counts once from `ver` on. */
  lemma SingleAt(ver: nat, k: Key, h: Key -> Prio, v: nat)
    ensures Weight(MakeHashedNode(ver, k, h), At(v)) == if ver <= v then multiset{k} else multiset{}
  {
    var t := MakeHashedNode(ver, k, h);
    var c := ValueAt(t.data.vals, v);
    assert Weight(t, At(v)) == multiset{} + Copies(k, c) + multiset{};
    if ver <= v {
      assert c == 1;
      assert Copies(k, 1) == multiset{k};
    } else {
      ValueAtNone(t.data.vals, v);
      assert Copies(k, 0) == multiset{};
    }
  }

  /** The counters of a batch treap are those of its two halves added up. */
  lemma BuildVersionedSplitAt(ver: nat, elems: seq<Key>, h: Key -> Prio, v: nat, m: nat)
    requires |elems| > 1 && m == Half(|elems|)
    ensures Weight(BuildVersioned(ver, elems, h), At(v))
         == Weight(BuildVersioned(ver, elems[..m], h), At(v)) + Weight(BuildVersioned(ver + m, elems[m..], h), At(v))
  {
    var n := |elems|;
    var a, b := elems[..m], elems[m..];
    var t0, t1 := BuildVersioned(ver, a, h), BuildVersioned(ver + m, b, h);
    BuildVersionedFresh(ver, a, ver + m, h);
    BuildVersionedFresh(ver + m, b, ver + n, h);
    assert BuildVersioned(ver, elems, h) == MergeVersioned(t0, t1);
    MergeVersionedAt(t0, t1, ver, ver + m, ver + n, v);
  }

  /** The elements stamped by `v` are those of the first part followed by those of the second. */
  lemma ClipSplit(ver: nat, elems: seq<Key>, m: nat, v: nat)
    requires m <= |elems|
    ensures multiset(elems[..Clip(ver, |elems|, v)])
         == multiset(elems[..m][..Clip(ver, |elems[..m]|, v)]) + multiset(elems[m..][..Clip(ver + m, |elems[m..]|, v)])
  {
    var n := |elems|;
    var a, b := elems[..m], elems[m..];
    assert |a| == m && |b| == n - m;
    var c, c0, c1 := Clip(ver, n, v), Clip(ver, |a|, v), Clip(ver + m, |b|, v);
    if c <= m {
      assert c0 == c && c1 == 0;
      assert elems[..c] == a[..c0];
    } else {
      assert c0 == m && c1 == c - m;
      assert elems[..c] == a[..c0] + b[..c1];
    }
  }

  /** The batch treap has a node for exactly the keys of the batch. */
  lemma {:induction false} BuildVersionedKeys(ver: nat, elems: seq<Key>, h: Key -> Prio, k: Key)
    ensures k in Keys(BuildVersioned(ver, elems, h)) <==> k in elems
    decreases |elems|
  {
    var n := |elems|;
    if n == 1 {
      assert BuildVersioned(ver, elems, h) == MakeHashedNode(ver, elems[0], h);
    } else if n > 1 {
      var m := Half(n);
      BuildVersionedKeys(ver, elems[..m], h, k);
      BuildVersionedKeys(ver + m, elems[m..], h, k);
      KeysSplit(ver, elems, h, k, m);
    }
  }

  /** An element is in a sequence exactly when it is in one of the two parts cut at `m`. */
  lemma InHalves(elems: seq<Key>, m: nat, k: Key)
    requires m <= |elems|
    ensures k in elems <==> k in elems[..m] || k in elems[m..]
  {
    assert elems == elems[..m] + elems[m..];
  }

  /** The keys of a batch treap of more than one element are those of its two halves. */
  lemma KeysSplit(ver: nat, elems: seq<Key>, h: Key -> Prio, k: Key, m: nat)
    requires |elems| > 1 && m == Half(|elems|)
    requires k in Keys(BuildVersioned(ver, elems[..m], h)) <==> k in elems[..m]
    requires k in Keys(BuildVersioned(ver + m, elems[m..], h)) <==> k in elems[m..]
    ensures k in Keys(BuildVersioned(ver, elems, h)) <==> k in elems
  {
    var a, b := elems[..m], elems[m..];
    InHalves(elems, m, k);
    assert BuildVersioned(ver, elems, h) == MergeVersioned(BuildVersioned(ver, a, h), BuildVersioned(ver + m, b, h));
    MergeVersionedKeys(BuildVersioned(ver, a, h), BuildVersioned(ver + m, b, h), k);
  }


  /** Under a perfect hash, `build_versioned` gives a treap. */
  lemma {:induction false} BuildVersionedTreap(ver: nat, elems: seq<Key>, h: Key -> Prio)
    requires Injective(h)
    ensures Treap(BuildVersioned(ver, elems, h), h)
    decreases |elems|
  {
    var n := |elems|;
    if n > 1 {
      var m := Half(n);
      var a, b := elems[..m], elems[m..];
      BuildVersionedTreap(ver, a, h);
      BuildVersionedTreap(ver + m, b, h);
      MergeTreap(BuildVersioned(ver, a, h), BuildVersioned(ver + m, b, h), Concatenated, h);
    }
  }
}
