/**
 * The batched engine over the per-key-history treap. Updates are collected
 * in a buffer of one kind (insert or delete); a full buffer, a change of
 * kind and `Close` flush it with one `inserted` or `deleted` call, whose
 * tree is appended to the root chain under the last version it covers. A
 * query is tagged with the number of operations submitted so far and is
 * answered by walking a cursor along the chain to the entry covering that
 * version.
 */
module BatchDb {
  import opened Shape
  import opened Weighted
  import opened PamNode
  import opened PamAugment
  import opened PamBuildVersioned
  import opened PamQuery
  import opened PamInterface

  /** `operation`: the kind of the buffered updates. */
  datatype Operation = Insert | Delete

  /** A `root_list` entry: the last version its tree covers, and the tree. */
  datatype Entry = Entry(ver: nat, t: Tree<PItem>)

  /**
   * The counters after one more operation. In this engine a delete clears
   * the key's counter, whatever it was.
   */
  function Apply(m: multiset<Key>, op: Operation, k: Key): multiset<Key>
  {
    if op == Insert then m + multiset{k} else m[k := 0]
  }

  /**
   * The buffer `buf` holds the operations after version `vc`, all of kind
   * `op`: its `(v - vc)`-th key turns version `v - 1` into version `v`.
   */
  ghost predicate Pending(history: seq<multiset<Key>>, vc: nat, op: Operation, buf: seq<Key>)
  {
    && vc + |buf| < |history|
    && forall v :: vc < v <= vc + |buf| ==> history[v] == Apply(history[v - 1], op, buf[v - vc - 1])
  }

  /** An entry's tree is a snapshot at its version and holds the counters of every version from `lo` to it. */
  ghost predicate Covers(e: Entry, lo: nat, h: Key -> Prio, history: seq<multiset<Key>>)
  {
    && e.ver < |history| && Snapshot(e.t, h, e.ver)
    && forall v :: lo <= v <= e.ver ==> Weight(e.t, At(v)) == history[v]
  }

  /** The first version entry `i` answers for: the previous entry's version. */
  function From(chain: seq<Entry>, i: nat): nat
    requires i < |chain|
  {
    if i == 0 then 0 else chain[i - 1].ver
  }

  /**
   * The root chain: it starts at version 0, its versions never decrease, and
   * each entry holds the counters from the previous entry's version to its own.
   */
  ghost predicate Chain(chain: seq<Entry>, h: Key -> Prio, history: seq<multiset<Key>>)
  {
    && |chain| > 0 && chain[0].ver == 0
    && (forall i :: 0 < i < |chain| ==> chain[i - 1].ver <= chain[i].ver)
    && forall i {:trigger Covers(chain[i], From(chain, i), h, history)} :: 0 <= i < |chain| ==> Covers(chain[i], From(chain, i), h, history)
  }

  /** A run of buffered inserts adds its keys. */
  lemma {:induction false} InsertRun(history: seq<multiset<Key>>, vc: nat, buf: seq<Key>, v: nat)
    requires Pending(history, vc, Insert, buf) && vc <= v <= vc + |buf|
    ensures history[v] == history[vc] + multiset(buf[..v - vc])
  {
    if v > vc {
      InsertRun(history, vc, buf, v - 1);
      assert buf[..v - vc] == buf[..v - 1 - vc] + [buf[v - vc - 1]];
    }
  }

  /** A run of buffered deletes clears exactly the keys it names. */
  lemma {:induction false} DeleteRun(history: seq<multiset<Key>>, vc: nat, buf: seq<Key>, v: nat, k: Key)
    requires Pending(history, vc, Delete, buf) && vc <= v <= vc + |buf|
    ensures history[v][k] == if k in buf[..v - vc] then 0 else history[vc][k]
  {
    if v > vc {
      DeleteRun(history, vc, buf, v - 1, k);
      assert buf[..v - vc] == buf[..v - 1 - vc] + [buf[v - vc - 1]];
    }
  }

  /** One more buffered operation extends the run by one version. */
  lemma PendingGrows(history: seq<multiset<Key>>, vc: nat, op: Operation, buf: seq<Key>, k: Key)
    requires Pending(history, vc, op, buf) && |history| == vc + |buf| + 1
    ensures Pending(history + [Apply(history[|history| - 1], op, k)], vc, op, buf + [k])
  {
    var x, b := history + [Apply(history[|history| - 1], op, k)], buf + [k];
    forall v | vc < v <= vc + |b|
      ensures x[v] == Apply(x[v - 1], op, b[v - vc - 1])
    {
      if v < |history| {
        assert x[v] == history[v] && x[v - 1] == history[v - 1] && b[v - vc - 1] == buf[v - vc - 1];
      }
    }
  }

  /** The counters a snapshot published at `vc` holds from `vc` on are those of version `vc`. */
  lemma Settled(e: Entry, h: Key -> Prio, history: seq<multiset<Key>>, lo: nat, v: nat)
    requires Covers(e, lo, h, history) && lo <= e.ver <= v
    ensures Weight(e.t, At(v)) == history[e.ver]
  {
    PublishedEvery(e.t, e.ver);
    SettledWeight(e.t, e.ver, v);
  }

  /**
   * A tree that is a snapshot at the last buffered version and adds, at each
   * buffered version, the inserts buffered so far to the last entry's
   * counters, covers the buffered versions.
   */
  lemma FlushInsert(e: Entry, t: Tree<PItem>, h: Key -> Prio, history: seq<multiset<Key>>, buf: seq<Key>)
    requires Covers(e, e.ver, h, history) && Pending(history, e.ver, Insert, buf)
    requires Snapshot(t, h, e.ver + |buf|)
    requires forall v :: e.ver <= v ==>
      Weight(t, At(v)) == Weight(e.t, At(v)) + multiset(buf[..Clip(e.ver + 1, |buf|, v)])
    ensures Covers(Entry(e.ver + |buf|, t), e.ver, h, history)
  {
    forall v | e.ver <= v <= e.ver + |buf|
      ensures Weight(t, At(v)) == history[v]
    {
      InsertCovers(e, Weight(t, At(v)), h, history, buf, v);
    }
  }

  /** At one buffered version: the last entry's counters plus the inserts so far are that version's counters. */
  lemma InsertCovers(e: Entry, w: multiset<Key>, h: Key -> Prio, history: seq<multiset<Key>>, buf: seq<Key>, v: nat)
    requires Covers(e, e.ver, h, history) && Pending(history, e.ver, Insert, buf) && e.ver <= v <= e.ver + |buf|
    requires w == Weight(e.t, At(v)) + multiset(buf[..Clip(e.ver + 1, |buf|, v)])
    ensures w == history[v]
  {
    assert Clip(e.ver + 1, |buf|, v) == v - e.ver;
    Settled(e, h, history, e.ver, v);
    InsertRun(history, e.ver, buf, v);
  }

  /**
   * A tree that is a snapshot at the last buffered version and clears, at
   * each buffered version, the keys deleted so far from the last entry's
   * counters, covers the buffered versions.
   */
  lemma FlushDelete(e: Entry, t: Tree<PItem>, h: Key -> Prio, history: seq<multiset<Key>>, buf: seq<Key>)
    requires Covers(e, e.ver, h, history) && Pending(history, e.ver, Delete, buf)
    requires Snapshot(t, h, e.ver + |buf|)
    requires forall v, k :: e.ver <= v ==>
      Weight(t, At(v))[k] == if k in buf[..Clip(e.ver + 1, |buf|, v)] then 0 else Weight(e.t, At(v))[k]
    ensures Covers(Entry(e.ver + |buf|, t), e.ver, h, history)
  {
    forall v | e.ver <= v <= e.ver + |buf|
      ensures Weight(t, At(v)) == history[v]
    {
      DeleteCovers(e, t, h, history, buf, v);
    }
  }

  /** At one buffered version: the last entry's counters with the deletes so far cleared are that version's counters. */
  lemma DeleteCovers(e: Entry, t: Tree<PItem>, h: Key -> Prio, history: seq<multiset<Key>>, buf: seq<Key>, v: nat)
    requires Covers(e, e.ver, h, history) && Pending(history, e.ver, Delete, buf) && e.ver <= v <= e.ver + |buf|
    requires forall k :: Weight(t, At(v))[k] == if k in buf[..Clip(e.ver + 1, |buf|, v)] then 0 else Weight(e.t, At(v))[k]
    ensures Weight(t, At(v)) == history[v]
  {
    assert Clip(e.ver + 1, |buf|, v) == v - e.ver;
    Settled(e, h, history, e.ver, v);
    forall k
      ensures Weight(t, At(v))[k] == history[v][k]
    {
      DeleteRun(history, e.ver, buf, v, k);
    }
  }

  /** The inserted tree of a buffer of inserts covers the buffered versions. */
  lemma FlushInsertTree(e: Entry, h: Key -> Prio, history: seq<multiset<Key>>, buf: seq<Key>)
    requires Injective(h) && Covers(e, e.ver, h, history) && Pending(history, e.ver, Insert, buf)
    ensures Covers(Entry(e.ver + |buf|, Inserted(e.t, e.ver + 1, buf, h)), e.ver, h, history)
  {
    InsertedCorrect(e.t, h, e.ver, e.ver + 1, buf, e.ver + |buf|);
    FlushInsert(e, Inserted(e.t, e.ver + 1, buf, h), h, history, buf);
  }

  /** The deleted tree of a buffer of deletes covers the buffered versions. */
  lemma FlushDeleteTree(e: Entry, h: Key -> Prio, history: seq<multiset<Key>>, buf: seq<Key>)
    requires Injective(h) && Covers(e, e.ver, h, history) && Pending(history, e.ver, Delete, buf)
    ensures Covers(Entry(e.ver + |buf|, Deleted(e.t, e.ver + 1, buf, h)), e.ver, h, history)
  {
    DeletedCorrect(e.t, h, e.ver, e.ver + 1, buf, e.ver + |buf|);
    FlushDelete(e, Deleted(e.t, e.ver + 1, buf, h), h, history, buf);
  }

  /** The last entry of a chain covers the versions from its predecessor's on, and in particular its own. */
  lemma LastCovers(chain: seq<Entry>, h: Key -> Prio, history: seq<multiset<Key>>)
    requires Chain(chain, h, history)
    ensures Covers(chain[|chain| - 1], chain[|chain| - 1].ver, h, history)
  {
    var e := chain[|chain| - 1];
    assert Covers(e, From(chain, |chain| - 1), h, history);
  }

  /** An entry covering the versions from the last entry's on can be appended to the chain. */
  lemma ChainAppend(chain: seq<Entry>, e': Entry, h: Key -> Prio, history: seq<multiset<Key>>)
    requires Chain(chain, h, history)
    requires chain[|chain| - 1].ver <= e'.ver && Covers(e', chain[|chain| - 1].ver, h, history)
    ensures Chain(chain + [e'], h, history)
  {
    var c := chain + [e'];
    forall i | 0 <= i < |c|
      ensures Covers(c[i], From(c, i), h, history)
    {
      if i < |chain| {
        assert c[i] == chain[i] && From(c, i) == From(chain, i);
      }
    }
  }

  /** Submitting one more operation leaves every committed entry's coverage as it was. */
  lemma ChainGrows(chain: seq<Entry>, h: Key -> Prio, history: seq<multiset<Key>>, m: multiset<Key>)
    requires Chain(chain, h, history)
    ensures Chain(chain, h, history + [m])
  {
    var x := history + [m];
    forall i | 0 <= i < |chain|
      ensures Covers(chain[i], From(chain, i), h, x)
    {
      assert Covers(chain[i], From(chain, i), h, history);
      forall v | From(chain, i) <= v <= chain[i].ver
        ensures Weight(chain[i].t, At(v)) == x[v]
      {
        assert x[v] == history[v];
      }
    }
  }

  /**
   * The entry a query stops on answers it: for a version it covers, the
   * sum over `[l, r]` and the single-key lookup read that version's counters.
   */
  lemma EntryAnswers(e: Entry, lo: nat, h: Key -> Prio, history: seq<multiset<Key>>, ver: nat, l: Key, r: Key)
    requires Covers(e, lo, h, history) && lo <= ver <= e.ver
    ensures Bst(e.t) && Every(e.t, InOrder()) && Memo(e.t)
    ensures RangeQuery(e.t, ver, l, r) == Tally(history[ver], l as int, r as int)
    ensures Weight(e.t, At(ver))[l] == history[ver][l]
    ensures l == r ==> Tally(history[ver], l as int, r as int) == history[ver][l]
  {
    SnapshotReads(e.t, h, e.ver, ver, l, r);
    FullyAugMemo(e.t);
    RangeSumTally(e.t, ver, l, r);
    RangeSumTally(e.t, ver, l, l);
  }

  class Batch {
    /** `batch_size_`: at least 1 (a batch size of 0 is raised to 1 on the command line). */
    const batchSize: nat
    /** `buffer_`: room for one batch of keys. */
    const buffer: array<Key>
    /** `buffer_type_`. */
    var bufferType: Operation
    /** `buffer_count_`. */
    var bufferCount: nat
    /** `version_submitted_`: the operations accepted so far. */
    var versionSubmitted: nat
    /** `version_committed_`: the operations published in the root chain. */
    var versionCommitted: nat
    /** The root chain from `root0_` (first) to `root_` (last). */
    var chain: seq<Entry>
    /** `num_versions_`: the entries appended after `root0_`. */
    var numVersions: nat
    /** The query thread's cursor: `cur_vid` (the position of `cur_root`) and `last_vid`. */
    var curVid: nat
    var lastVid: nat
    /** The element hash giving every key its priority (a perfect hash). */
    const h: Key -> Prio
    /** The counters of every submitted version, version 0 being the initial array. */
    ghost var history: seq<multiset<Key>>

    /**
     * The accounting of the buffer and the chain: the submitted versions are
     * the committed ones plus the buffer, the chain covers every committed
     * version and the buffer holds the rest, and the cursor stays on the chain.
     */
    ghost predicate Inv()
      reads this, buffer
    {
      && Injective(h) && buffer.Length == batchSize && 0 < batchSize
      && bufferCount <= batchSize
      && versionSubmitted == versionCommitted + bufferCount
      && |history| == versionSubmitted + 1
      && Chain(chain, h, history)
      && chain[|chain| - 1].ver == versionCommitted
      && numVersions == |chain| - 1
      && curVid <= lastVid <= numVersions
      && Pending(history, versionCommitted, bufferType, buffer[..bufferCount])
    }

    /** Between calls the buffer also has room for one more key. */
    ghost predicate Valid()
      reads this, buffer
    {
      Inv() && bufferCount < batchSize
    }

    /** The state the constructor leaves: nothing submitted, no chain yet. */
    ghost predicate Created()
      reads this, buffer
    {
      && Injective(h) && buffer.Length == batchSize && 0 < batchSize
      && bufferType == Operation.Insert && bufferCount == 0
      && versionSubmitted == 0 && versionCommitted == 0
      && chain == [] && numVersions == 0 && curVid == 0 && lastVid == 0
    }

    constructor (size: nat, hash: Key -> Prio)
      requires 0 < size && Injective(hash)
      ensures Created() && batchSize == size && h == hash && fresh(buffer)
    {
      batchSize := size;
      h := hash;
      bufferType := Operation.Insert;
      bufferCount := 0;
      buffer := new Key[size];
      versionSubmitted := 0;
      versionCommitted := 0;
      chain := [];
      numVersions := 0;
      curVid := 0;
      lastVid := 0;
    }

    /** `Init(n, m, elems)`: the chain's first entry is the built tree, at version 0. */
    method Init(elems: seq<Key>)
      requires Created()
      modifies this
      ensures Valid() && chain == [Entry(0, Build(elems, h))] && history == [multiset(elems)]
      ensures versionSubmitted == 0 && bufferType == old(bufferType)
    {
      chain := [Entry(0, Build(elems, h))];
      history := [multiset(elems)];
      BuildCorrect(elems, h);
      assert Covers(chain[0], From(chain, 0), h, history);
    }

    /**
     * `do_update_`: the buffer is applied from version `version_committed_ + 1`
     * on and the resulting tree is appended to the chain under the last
     * submitted version, so that the new entry holds the counters of every
     * version from the previous entry's on; the buffer is then empty.
     */
    method DoUpdate()
      requires Inv()
      modifies this
      ensures Valid() && bufferCount == 0 && versionCommitted == versionSubmitted
      ensures |chain| == |old(chain)| + 1 && chain[..|chain| - 1] == old(chain)
      ensures numVersions == old(numVersions) + 1
      ensures history == old(history) && versionSubmitted == old(versionSubmitted) && bufferType == old(bufferType)
      ensures curVid == old(curVid) && lastVid == old(lastVid)
    {
      var buf := buffer[..bufferCount];
      var e := chain[|chain| - 1];
      LastCovers(chain, h, history);
      var t;
      if bufferType == Operation.Insert {
        t := Inserted(e.t, e.ver + 1, buf, h);
        FlushInsertTree(e, h, history, buf);
      } else {
        t := Deleted(e.t, e.ver + 1, buf, h);
        FlushDeleteTree(e, h, history, buf);
      }
      var next := Entry(e.ver + |buf|, t);
      ChainAppend(chain, next, h, history);
      chain := chain + [next];
      versionCommitted := next.ver;
      bufferCount := 0;
      numVersions := numVersions + 1;
    }

    /**
     * `update_enbuffer_(type, key)`: a buffer of the other kind is flushed
     * first, even an empty one; the key takes the next version; a buffer
     * that is then full is flushed.
     */
    method Enbuffer(op: Operation, key: Key)
      requires Valid()
      modifies this, buffer
      ensures Valid() && bufferType == op
      ensures history == old(history) + [Apply(old(history[|history| - 1]), op, key)]
      ensures versionSubmitted == old(versionSubmitted) + 1
      ensures old(chain) <= chain && |chain| <= |old(chain)| + 2
      ensures old(bufferType) == op && old(bufferCount) + 1 < batchSize ==> chain == old(chain) && bufferCount == old(bufferCount) + 1
      ensures old(bufferType) != op ==> |chain| > |old(chain)|
    {
      if bufferType != op {
        DoUpdate();
        bufferType := op;
      }
      Push(key);
      if bufferCount == batchSize {
        DoUpdate();
      }
    }

    /** The key goes into the next free slot of the buffer and takes the next version. */
    method Push(key: Key)
      requires Valid()
      modifies this, buffer
      ensures Inv() && bufferCount == old(bufferCount) + 1 && buffer[..bufferCount] == old(buffer[..bufferCount]) + [key]
      ensures history == old(history) + [Apply(old(history[|history| - 1]), bufferType, key)]
      ensures versionSubmitted == old(versionSubmitted) + 1
      ensures chain == old(chain) && bufferType == old(bufferType) && versionCommitted == old(versionCommitted)
      ensures numVersions == old(numVersions) && curVid == old(curVid) && lastVid == old(lastVid)
    {
      ghost var prev := buffer[..bufferCount];
      ghost var m := Apply(history[|history| - 1], bufferType, key);
      PendingGrows(history, versionCommitted, bufferType, prev, key);
      ChainGrows(chain, h, history, m);
      buffer[bufferCount] := key;
      assert buffer[..bufferCount + 1] == prev + [key];
      history := history + [m];
      bufferCount := bufferCount + 1;
      versionSubmitted := versionSubmitted + 1;
    }

    /** `Insert(k)`: buffers an insert of `k`; always accepted. */
    method Insert(k: Key) returns (status: int)
      requires Valid()
      modifies this, buffer
      ensures Valid() && status == 0
      ensures history == old(history) + [old(history[|history| - 1]) + multiset{k}]
      ensures versionSubmitted == old(versionSubmitted) + 1 && old(chain) <= chain
    {
      Enbuffer(Operation.Insert, k);
      return 0;
    }

    /** `Delete(k)`: buffers a delete of `k`, which clears its counter; always accepted. */
    method Delete(k: Key) returns (status: int)
      requires Valid()
      modifies this, buffer
      ensures Valid() && status == 0
      ensures history == old(history) + [old(history[|history| - 1])[k := 0]]
      ensures versionSubmitted == old(versionSubmitted) + 1 && old(chain) <= chain
    {
      Enbuffer(Operation.Delete, k);
      return 0;
    }

    /** `Close`: a non-empty buffer is flushed, so that every submitted version is committed. */
    method Close()
      requires Valid()
      modifies this
      ensures Valid() && bufferCount == 0 && versionCommitted == versionSubmitted
      ensures history == old(history) && versionSubmitted == old(versionSubmitted) && old(chain) <= chain
      ensures old(bufferCount) == 0 ==> chain == old(chain)
    {
      if bufferCount > 0 {
        DoUpdate();
      }
    }

    /** `Query(l, r)`: the request goes to the processor tagged with the operations submitted so far. */
    method Query(l: Key, r: Key) returns (ver: nat)
      requires Valid()
      ensures ver == versionSubmitted && ver < |history|
    {
      return versionSubmitted;
    }

    /**
     * `process_range_query_(ver, l, r)` for a version already committed: the
     * cursor walks back while the previous entry still covers `ver`, then
     * forward past entries older than `ver`, re-reading the chain length
     * only when it reaches the last length it read. It stops on the entry
     * covering `ver`, which answers with `find` for a single key and with
     * `range_estimate` otherwise: the number of copies of keys in `[l, r]`
     * at version `ver`.
     */
    method ProcessRangeQuery(ver: nat, l: Key, r: Key) returns (a: nat)
      requires Valid() && ver <= versionCommitted
      modifies this
      ensures Valid()
      ensures chain == old(chain) && history == old(history) && numVersions == old(numVersions)
      ensures versionSubmitted == old(versionSubmitted) && versionCommitted == old(versionCommitted)
      ensures bufferCount == old(bufferCount) && bufferType == old(bufferType)
      ensures ver <= chain[curVid].ver && (curVid == 0 || chain[curVid - 1].ver < ver)
      ensures a == Tally(history[ver], l as int, r as int)
      ensures l == r ==> a == history[ver][l]
    {
      var cur, last := Seek(ver);
      curVid, lastVid := cur, last;
      a := Answer(cur, ver, l, r);
    }

    /**
     * The cursor walk of `process_range_query_`: back while the previous
     * entry still covers `ver`, then forward past entries older than `ver`,
     * re-reading the chain length only on reaching the last length read.
     * It stops on the first entry whose version is not below `ver`.
     */
    method Seek(ver: nat) returns (cur: nat, last: nat)
      requires Valid() && ver <= versionCommitted
      ensures cur <= last <= numVersions && cur < |chain|
      ensures ver <= chain[cur].ver && (cur == 0 || chain[cur - 1].ver < ver)
    {
      cur, last := curVid, lastVid;
      var ch, n := chain, numVersions;
      assert |ch| == n + 1 && ch[n].ver == versionCommitted;
      while cur != 0 && ver <= ch[cur - 1].ver
        invariant cur <= last <= n
        decreases cur
      {
        cur := cur - 1;
      }
      while ver > ch[cur].ver
        invariant cur <= last <= n
        invariant cur == 0 || ch[cur - 1].ver < ver
        decreases 2 * n - cur - last
      {
        while ver > ch[cur].ver && cur < last
          invariant cur <= last <= n
          invariant cur == 0 || ch[cur - 1].ver < ver
          decreases last - cur
        {
          cur := cur + 1;
        }
        if ver > ch[cur].ver {
          last := n;
        }
      }
    }

    /**
     * The entry at position `cur` answers a query for a version it covers:
     * `find` for a single key and `range_estimate` otherwise, which count
     * the copies of keys in `[l, r]` at version `ver`.
     */
    method Answer(cur: nat, ver: nat, l: Key, r: Key) returns (a: nat)
      requires Valid() && cur < |chain| && From(chain, cur) <= ver <= chain[cur].ver && ver <= versionCommitted
      ensures a == Tally(history[ver], l as int, r as int)
      ensures l == r ==> a == history[ver][l]
    {
      var e := chain[cur];
      assert Covers(e, From(chain, cur), h, history);
      EntryAnswers(e, From(chain, cur), h, history, ver, l, r);
      if l == r {
        a := Find(e.t, ver, l);
      } else {
        a := RangeQuery(e.t, ver, l, r);
      }
    }
  }
}
