/**
 * The single-threaded reference engine: every operation takes the next
 * version number, builds that version's root from the previous one with the
 * recursive treap operations and augments it at once; a query is answered
 * against the version it was issued at.
 */
module SequentialDb {
  import opened Shape
  import opened TreapNode
  import opened TreapAugment
  import opened TreapInsert
  import opened TreapDelete
  import opened TreapQuery
  import opened TreapBuild
  import opened Wrappers


  /**
   * The root of an insert's version: `search_insert` on the previous root,
   * then `augment`. On an augmented treap it is an augmented treap with one
   * more copy of the key.
   */
  function InsertVersion(ver: nat, prev: Tree<Item>, k: Key, h: Key -> Prio): (t: Tree<Item>)
    requires Treap(prev, h) && FullyAug(prev) && Injective(h)
    ensures Treap(t, h) && FullyAug(t) && Content(t) == Content(prev) + multiset{k}
  {
    var s := SearchInsert(ver, prev, h(k), k);
    InsertTreap(ver, prev, k, h);
    InsertContent(ver, prev, h(k), k);
    FullyAugMemo(prev);
    InsertShares(ver, prev, h(k), k);
    AugmentKeeps(s, h);
    Augment(s).0
  }

  /**
   * The root of a delete's version: `search_delete` on the previous root,
   * then `augment`. On an augmented treap it is an augmented treap with one
   * copy of the key fewer.
   */
  function DeleteVersion(ver: nat, prev: Tree<Item>, k: Key, h: Key -> Prio): (t: Tree<Item>)
    requires Treap(prev, h) && FullyAug(prev) && Injective(h)
    ensures Treap(t, h) && FullyAug(t) && Content(t) == Content(prev) - multiset{k}
  {
    var s := SearchDelete(ver, prev, h(k), k);
    DeleteTreap(ver, prev, k, h);
    DeleteContent(ver, prev, k, h);
    FullyAugMemo(prev);
    DeleteShares(ver, prev, h(k), k);
    AugmentKeeps(s, h);
    Augment(s).0
  }

  /** A version's root: an augmented treap holding exactly the keys `m`. */
  ghost predicate Holds(t: Tree<Item>, h: Key -> Prio, m: multiset<Key>)
  {
    Treap(t, h) && FullyAug(t) && Content(t) == m
  }

  class Sequential {
    /** `roots_`: the root of every version, allocated for `m` operations by `Init`. */
    var roots: array<Tree<Item>>
    /** `num_versions_`: the last version issued. */
    var numVersions: nat
    /** The element hash giving every key its priority (a perfect hash). */
    const h: Key -> Prio
    /** The multiset of live keys of every version issued so far. */
    ghost var history: seq<multiset<Key>>

    /**
     * Every issued version has a root in the array, that root is a treap
     * holding exactly that version's keys, and all its sums are computed.
     */
    ghost predicate Valid()
      reads this, roots
    {
      && Injective(h)
      && numVersions < roots.Length
      && |history| == numVersions + 1
      && forall v :: 0 <= v <= numVersions ==> Holds(roots[v], h, history[v])
    }

    constructor (hash: Key -> Prio)
      ensures h == hash && numVersions == 0
    {
      h := hash;
      numVersions := 0;
      roots := new Tree<Item>[0];
    }

    /**
     * `Init(n, m, elems)`: room for `m` operations after version 0, which is
     * the augmented treap built from `elems`.
     */
    method Init(elems: seq<Key>, m: nat)
      requires Injective(h) && numVersions == 0
      modifies this
      ensures Valid() && fresh(roots) && roots.Length == m + 1
      ensures numVersions == 0 && history == [multiset(elems)]
    {
      roots := new Tree<Item>[m + 1](_ => Nil);
      roots[0] := BuildAugmented(elems, h);
      history := [multiset(elems)];
    }

    /**
     * `Insert(k)`: version `ver` is version `ver - 1` with one more copy of
     * `k`; every earlier version is left as it was. The status is always 0.
     */
    method Insert(k: Key) returns (ver: nat, status: int)
      requires Valid() && numVersions + 1 < roots.Length
      modifies this, roots
      ensures Valid() && roots == old(roots)
      ensures ver == numVersions == old(numVersions) + 1 && status == 0
      ensures history == old(history) + [old(history)[ver - 1] + multiset{k}]
      ensures roots[..ver] == old(roots[..ver])
    {
      ver := numVersions + 1;
      var t := InsertVersion(ver, roots[ver - 1], k, h);
      roots[ver] := t;
      numVersions := ver;
      history := history + [history[ver - 1] + multiset{k}];
      status := 0;
    }

    /**
     * `Delete(k)`: version `ver` is version `ver - 1` with one copy of `k`
     * fewer (nothing changes if `k` is absent). The status is always 0.
     */
    method Delete(k: Key) returns (ver: nat, status: int)
      requires Valid() && numVersions + 1 < roots.Length
      modifies this, roots
      ensures Valid() && roots == old(roots)
      ensures ver == numVersions == old(numVersions) + 1 && status == 0
      ensures history == old(history) + [old(history)[ver - 1] - multiset{k}]
      ensures roots[..ver] == old(roots[..ver])
    {
      ver := numVersions + 1;
      var t := DeleteVersion(ver, roots[ver - 1], k, h);
      roots[ver] := t;
      numVersions := ver;
      history := history + [history[ver - 1] - multiset{k}];
      status := 0;
    }

    /**
     * `Query(l, r)`: takes a version of its own, equal to the previous one,
     * and hands the query to the processor with that version.
     */
    method Query(l: Key, r: Key) returns (ver: nat)
      requires Valid() && numVersions + 1 < roots.Length
      modifies this, roots
      ensures Valid() && roots == old(roots)
      ensures ver == numVersions == old(numVersions) + 1
      ensures history == old(history) + [old(history)[ver - 1]]
      ensures roots[..ver] == old(roots[..ver]) && roots[ver] == roots[ver - 1]
    {
      ver := numVersions + 1;
      roots[ver] := roots[ver - 1];
      numVersions := ver;
      history := history + [history[ver - 1]];
    }

    /**
     * The processor function as written: a point query (`l == r`) returns
     * the counter of the node `find` reaches, and `None` stands for the null
     * pointer it dereferences when the key is absent; any other query is the
     * range estimate. Once the version is issued the answer is the number of
     * live copies of keys in `[l, r]` at that version.
     */
    method AnswerAsWritten(ver: nat, l: Key, r: Key) returns (a: Option<nat>)
      requires Valid() && ver <= numVersions
      ensures a.None? <==> l == r && l !in history[ver]
      ensures a.Some? ==> a.value == RangeCount(roots[ver], l, r)
      ensures l == r && a.Some? ==> a.value == history[ver][l]
    {
      var t := roots[ver];
      ContentKeys(t);
      if l == r {
        PointRange(t, l);
        var f := Find(t, l);
        if f == Nil {
          return None;
        }
        return Some(f.data.val);
      }
      return Some(RangeQuery(t, l, r));
    }

    /**
     * The processor function with an absent key answered 0: every query
     * returns the number of live copies of keys in `[l, r]` at its version.
     */
    method Answer(ver: nat, l: Key, r: Key) returns (a: nat)
      requires Valid() && ver <= numVersions
      ensures a == RangeCount(roots[ver], l, r)
      ensures l == r ==> a == history[ver][l]
      ensures r < l ==> a == 0
    {
      var t := roots[ver];
      if l == r {
        PointRange(t, l);
        ContentKeys(t);
        var f := Find(t, l);
        a := if f == Nil then 0 else f.data.val;
      } else {
        a := RangeQuery(t, l, r);
      }
    }
  }
}
