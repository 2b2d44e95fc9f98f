/**
 * Nodes of the per-key-history treap. A node keeps, for its key, the history
 * of the key's counter as a list of (value, version) entries in version
 * order: the counter has `val` from version `ver` until the next entry.
 * `vstat` is the greatest version among the last entries of the subtree, or
 * unset while the node is transient (built for a batch and not yet
 * augmented); `aug` is then the sum of the last values of the subtree.
 */
module PamNode {
  import opened Shape
  import opened Weighted

  /** `valver`: the counter's value from version `ver` on. */
  datatype ValVer = ValVer(val: nat, ver: nat)

  /** `vals[0..nvals)`: never empty. */
  type History = s: seq<ValVer> | |s| >= 1 witness [ValVer(1, 0)]

  /** `vstat`: `Unset` is `vstat_uninitialized`. */
  datatype Vstat = Unset | Stat(ver: nat)

  datatype PItem = PItem(vals: History, vstat: Vstat, aug: nat)

  /** `aug_uninitialized`. */
  const AugUninitialized: nat := 0

  /** `vals[nvals-1]`: the current entry. */
  function Last(vals: History): ValVer
  {
    vals[|vals| - 1]
  }

  /** `make_node(ver, pry, key, val)`: one entry, transient, childless. */
  function MakeNode(ver: nat, pry: Prio, key: Key, val: nat): (t: Tree<PItem>)
    ensures t.Node? && t.pry == pry && t.key == key && t.left == Nil && t.right == Nil
    ensures t.data.vals == [ValVer(val, ver)] && t.data.vstat == Unset && t.data.aug == AugUninitialized
  {
    Node(pry, key, PItem([ValVer(val, ver)], Unset, AugUninitialized), Nil, Nil)
  }

  /** `make_node(ver, key)`: priority from the hash, counter 1. */
  function MakeHashedNode(ver: nat, key: Key, h: Key -> Prio): (t: Tree<PItem>)
    ensures Treap(t, h) && Keys(t) == {key} && t.data.vals == [ValVer(1, ver)]
    ensures t.data.vstat == Unset && Size(t) == 1
  {
    var t := MakeNode(ver, h(key), key, 1);
    assert Keyed(t, h) && Bst(t) && Heap(t);
    t
  }

  /** The payload of a weak copy: only the current entry, transient. */
  function WeakData(d: PItem): (e: PItem)
    ensures e.vals == [Last(d.vals)] && Last(e.vals) == Last(d.vals)
    ensures e.vstat == Unset && e.aug == AugUninitialized
  {
    PItem([Last(d.vals)], Unset, AugUninitialized)
  }

  /** `make_weak_copy(t)`: a childless node with the key, priority and current entry of `t`. */
  function WeakCopy(t: Tree<PItem>): (c: Tree<PItem>)
    requires t.Node?
    ensures c == MakeNode(Last(t.data.vals).ver, t.pry, t.key, Last(t.data.vals).val)
    ensures c.data == WeakData(t.data)
  {
    Node(t.pry, t.key, WeakData(t.data), Nil, Nil)
  }

  /** `subtree_vstat`: 0 for the empty tree; otherwise the node must be augmented. */
  function SubtreeVstat(t: Tree<PItem>): (s: nat)
    requires t == Nil || t.data.vstat.Stat?
    ensures t == Nil ==> s == 0
    ensures t.Node? ==> Stat(s) == t.data.vstat
  {
    if t == Nil then 0 else t.data.vstat.ver
  }

  /** The counter as of version `v`: the latest entry not after `v`, and 0 before the first. */
  function ValueAt(vals: seq<ValVer>, v: nat): nat
  {
    if vals == [] then 0
    else if vals[|vals| - 1].ver <= v then vals[|vals| - 1].val
    else ValueAt(vals[..|vals| - 1], v)
  }

  /** Versions strictly increase along a history. */
  ghost predicate Ascending(vals: seq<ValVer>)
  {
    forall i, j :: 0 <= i < j < |vals| ==> vals[i].ver < vals[j].ver
  }

  /** The weight that reads a node's counter as of version `v`. */
  function At(v: nat): (w: PItem -> nat)
    ensures forall d :: w(d) == ValueAt(d.vals, v)
  {
    (d: PItem) => ValueAt(d.vals, v)
  }

  /** A node's current entry is not after `v`. */
  function SettledBy(v: nat): (ok: PItem -> bool)
    ensures forall d :: ok(d) == (Last(d.vals).ver <= v)
  {
    (d: PItem) => Last(d.vals).ver <= v
  }

  /** The history is in version order. */
  ghost function InOrder(): (ok: PItem -> bool)
    ensures forall d :: ok(d) == Ascending(d.vals)
  {
    (d: PItem) => Ascending(d.vals)
  }

  /** A published node: its history in version order and its current entry not after `v`. */
  ghost function Published(v: nat): (ok: PItem -> bool)
    ensures forall d :: ok(d) == (Ascending(d.vals) && Last(d.vals).ver <= v)
  {
    (d: PItem) => Ascending(d.vals) && Last(d.vals).ver <= v
  }

  /** Every version in a history is at least `lo` and below `hi`. */
  ghost predicate VersionsIn(vals: seq<ValVer>, lo: nat, hi: nat)
  {
    forall i :: 0 <= i < |vals| ==> lo <= vals[i].ver < hi
  }

  /** The node's versions lie in `[lo, hi)`. */
  ghost function Between(lo: nat, hi: nat): (ok: PItem -> bool)
    ensures forall d :: ok(d) == VersionsIn(d.vals, lo, hi)
  {
    (d: PItem) => VersionsIn(d.vals, lo, hi)
  }

  /** Once the current entry is not after `v`, the counter as of `v` is the current value. */
  lemma ValueAtSettled(vals: History, v: nat)
    requires Last(vals).ver <= v
    ensures ValueAt(vals, v) == Last(vals).val
  {
  }

  /**
   * A weak copy keeps the counter as of every version from its current entry
   * on; so on a tree whose current entries are all settled by `v`, weak
   * copies keep the counters as of `v`.
   */
  lemma {:induction false} WeakKeeps(t: Tree<PItem>, v: nat)
    requires Every(t, SettledBy(v))
    ensures Keeps(t, WeakData, At(v))
  {
    match t
    case Nil =>
    case Node(_, _, d, l, r) =>
      WeakKeeps(l, v);
      WeakKeeps(r, v);
  }

  /** An entry past every version of a history answers for all later versions. */
  lemma {:induction false} ValueAtPrefix(vals: seq<ValVer>, extra: seq<ValVer>, v: nat)
    requires forall i :: 0 <= i < |extra| ==> v < extra[i].ver
    ensures ValueAt(vals + extra, v) == ValueAt(vals, v)
    decreases |extra|
  {
    if extra != [] {
      var e := extra[..|extra| - 1];
      var all := vals + extra;
      assert all[|all| - 1] == extra[|extra| - 1];
      assert all[..|all| - 1] == vals + e;
      assert ValueAt(all, v) == ValueAt(vals + e, v);
      ValueAtPrefix(vals, e, v);
    } else {
      assert vals + extra == vals;
    }
  }

  /** Every value of a history raised by `base`, versions kept. */
  function Shift(vals: seq<ValVer>, base: nat): (s: seq<ValVer>)
    ensures |s| == |vals|
    ensures forall i :: 0 <= i < |s| ==> s[i] == ValVer(vals[i].val + base, vals[i].ver)
  {
    if vals == [] then [] else Shift(vals[..|vals| - 1], base) + [ValVer(vals[|vals| - 1].val + base, vals[|vals| - 1].ver)]
  }

  /**
   * Entries raised by the value `base` that the history `a` has at `v`,
   * appended after `a`, add their own counter as of `v` to `base`.
   */
  lemma {:induction false} ValueAtAppend(a: seq<ValVer>, b: seq<ValVer>, base: nat, v: nat)
    requires ValueAt(a, v) == base
    ensures ValueAt(a + Shift(b, base), v) == base + ValueAt(b, v)
    decreases |b|
  {
    if b == [] {
      assert a + Shift(b, base) == a;
    } else {
      var e := b[..|b| - 1];
      var all := a + Shift(b, base);
      assert all[|all| - 1] == ValVer(b[|b| - 1].val + base, b[|b| - 1].ver);
      assert all[..|all| - 1] == a + Shift(e, base);
      ValueAtAppend(a, e, base, v);
    }
  }

  /** Before every entry the counter is 0. */
  lemma {:induction false} ValueAtNone(vals: seq<ValVer>, v: nat)
    requires forall i :: 0 <= i < |vals| ==> v < vals[i].ver
    ensures ValueAt(vals, v) == 0
    decreases |vals|
  {
    if vals != [] {
      ValueAtNone(vals[..|vals| - 1], v);
    }
  }

  /** In a history in version order, entry `i` answers from its version until the next entry. */
  lemma {:induction false} ValueAtIndex(vals: seq<ValVer>, i: nat, v: nat)
    requires Ascending(vals) && i < |vals| && vals[i].ver <= v
    requires i + 1 < |vals| ==> v < vals[i + 1].ver
    ensures ValueAt(vals, v) == vals[i].val
    decreases |vals|
  {
    if i + 1 < |vals| {
      ValueAtIndex(vals[..|vals| - 1], i, v);
    }
  }

  /** Every counter of the history is positive. */
  ghost predicate Positive(vals: seq<ValVer>)
  {
    forall i :: 0 <= i < |vals| ==> vals[i].val > 0
  }

  /** In an ordered history of positive counters, the counter is positive exactly from the first version on. */
  lemma {:induction false} ValueAtPositive(vals: History, v: nat)
    requires Ascending(vals) && Positive(vals)
    ensures ValueAt(vals, v) > 0 <==> vals[0].ver <= v
    decreases |vals|
  {
    if vals[|vals| - 1].ver > v && |vals| > 1 {
      ValueAtPositive(vals[..|vals| - 1], v);
    } else if vals[|vals| - 1].ver > v {
      ValueAtNone(vals[..|vals| - 1], v);
    }
  }

  /** The greatest version of a current entry in the tree; 0 for the empty tree. */
  function MaxLast(t: Tree<PItem>): nat
  {
    match t
    case Nil => 0
    case Node(_, _, d, l, r) =>
      var m := if MaxLast(l) < MaxLast(r) then MaxLast(r) else MaxLast(l);
      if Last(d.vals).ver < m then m else Last(d.vals).ver
  }

  /** The sum of the current values of the tree. */
  function SumLast(t: Tree<PItem>): nat
  {
    match t
    case Nil => 0
    case Node(_, _, d, l, r) => SumLast(l) + Last(d.vals).val + SumLast(r)
  }

  /** The watermark bounds every current entry: the tree is settled by `v` exactly when it is not above `v`. */
  lemma {:induction false} MaxLastSettled(t: Tree<PItem>, v: nat)
    ensures MaxLast(t) <= v <==> Every(t, SettledBy(v))
  {
    match t
    case Nil =>
    case Node(_, _, _, l, r) =>
      MaxLastSettled(l, v);
      MaxLastSettled(r, v);
  }

  /** Settled by `a` means settled by every later version. */
  lemma {:induction false} SettledLater(t: Tree<PItem>, a: nat, v: nat)
    requires Every(t, SettledBy(a)) && a <= v
    ensures Every(t, SettledBy(v))
  {
    match t
    case Nil =>
    case Node(_, _, _, l, r) =>
      SettledLater(l, a, v);
      SettledLater(r, a, v);
  }

  /** On a tree settled by `a`, the counters read the same at every version from `a` on. */
  lemma {:induction false} SettledWeight(t: Tree<PItem>, a: nat, v: nat)
    requires Every(t, SettledBy(a)) && a <= v
    ensures Weight(t, At(v)) == Weight(t, At(a))
  {
    match t
    case Nil =>
    case Node(_, _, d, l, r) =>
      ValueAtSettled(d.vals, a);
      ValueAtSettled(d.vals, v);
      SettledWeight(l, a, v);
      SettledWeight(r, a, v);
  }

  /** A tree is published by `v` exactly when its histories are ordered and settled by `v`. */
  lemma {:induction false} PublishedEvery(t: Tree<PItem>, v: nat)
    ensures Every(t, Published(v)) <==> Every(t, InOrder()) && Every(t, SettledBy(v))
  {
    match t
    case Nil =>
    case Node(_, _, _, l, r) =>
      PublishedEvery(l, v);
      PublishedEvery(r, v);
  }
}
