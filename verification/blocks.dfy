/**
 * How the pipelined engine hands version ranges to its workers for
 * augmentation, and how a snapshot reader finds the worker whose progress
 * it must wait for. Versions 1..n are cut into blocks of `bs` consecutive
 * versions; block `b` (counting from 0) belongs to worker `b % w` (counting
 * from 0) as that worker's block number `b / w`. A worker publishes in
 * `num_estimated_` how many of its blocks it has augmented.
 */
module Blocks {
  import opened Wrappers

  /** A counter of `num_estimated_` and a position in that worker's block list. */
  datatype Slot = Slot(worker: nat, pos: nat)

  function Min(a: nat, b: nat): (m: nat)
    ensures m <= a && m <= b && (m == a || m == b)
  {
    if a <= b then a else b
  }

  /** The first version of a worker's block at a position, as `worker_thread_` strides. */
  function StripeStart(s: Slot, w: nat, bs: nat): nat
  {
    s.worker * bs + 1 + s.pos * w * bs
  }

  /** The slot whose block holds version `t`. */
  function Owner(t: nat, w: nat, bs: nat): Slot
    requires t >= 1 && w >= 1 && bs >= 1
  {
    Slot(((t - 1) / bs) % w, ((t - 1) / bs) / w)
  }

  /** The first version of the block numbered `b`. */
  lemma StripeStartBlock(b: nat, w: nat, bs: nat)
    requires w >= 1 && bs >= 1
    ensures StripeStart(Slot(b % w, b / w), w, bs) == b * bs + 1
  {
    var q, m := b / w, b % w;
    assert b == q * w + m;
    calc {
      m * bs + 1 + q * w * bs;
      (q * w + m) * bs + 1;
      b * bs + 1;
    }
  }

  /** Multiplying keeps order. */
  lemma MulMono(a: nat, b: nat, k: nat)
    requires a <= b
    ensures a * k <= b * k
  {
  }

  /** The quotient and remainder of `x` by `d` when `x` lies in the `q`-th run of `d` numbers. */
  lemma DivOf(x: nat, d: nat, q: nat)
    requires d >= 1 && q * d <= x < q * d + d
    ensures x / d == q && x % d == x - q * d
  {
    var q', r := x / d, x % d;
    assert x == q' * d + r && 0 <= r < d;
    if q' < q {
      MulMono(q' + 1, q, d);
    } else if q < q' {
      MulMono(q + 1, q', d);
    }
  }

  /**
   * Every version from 1 on lies in the block of its owner, and in no other
   * block: the workers' stripes cover the versions without overlap.
   */
  lemma OwnerBlock(t: nat, w: nat, bs: nat, s: Slot)
    requires t >= 1 && w >= 1 && bs >= 1 && s.worker < w
    ensures s == Owner(t, w, bs) <==> StripeStart(s, w, bs) <= t < StripeStart(s, w, bs) + bs
  {
    var b := (t - 1) / bs;
    assert t - 1 == b * bs + (t - 1) % bs;
    StripeStartBlock(b, w, bs);
    var c := s.pos * w + s.worker;
    DivOf(c, w, s.pos);
    StripeStartBlock(c, w, bs);
    if s == Owner(t, w, bs) {
      assert c == b;
    }
    if StripeStart(s, w, bs) <= t < StripeStart(s, w, bs) + bs {
      DivOf(t - 1, bs, c);
    }
  }

  /** `get_snapshot`'s slot as written: the block of `ver / bs`. */
  function SnapshotSlot(ver: nat, w: nat, bs: nat): Slot
    requires w >= 1 && bs >= 1
  {
    Slot((ver / bs) % w, (ver / bs) / w)
  }

  /** Away from block boundaries the slot as written is the owner's slot. */
  lemma SnapshotSlotAgrees(ver: nat, w: nat, bs: nat)
    requires ver >= 1 && w >= 1 && bs >= 1 && ver % bs != 0
    ensures SnapshotSlot(ver, w, bs) == Owner(ver, w, bs)
  {
    var q := ver / bs;
    assert ver == q * bs + ver % bs;
    DivOf(ver - 1, bs, q);
  }

  /**
   * At every block boundary the slot as written is the next block, of the
   * same worker or of another, which does not hold the version: the wait
   * can end before the version is augmented.
   */
  lemma SnapshotSlotMissesAll(ver: nat, w: nat, bs: nat)
    requires ver >= 1 && w >= 1 && bs >= 1 && ver % bs == 0
    ensures SnapshotSlot(ver, w, bs) == Owner(ver + 1, w, bs)
    ensures SnapshotSlot(ver, w, bs) != Owner(ver, w, bs)
    ensures !(StripeStart(SnapshotSlot(ver, w, bs), w, bs) <= ver < StripeStart(SnapshotSlot(ver, w, bs), w, bs) + bs)
  {
    var q := ver / bs;
    assert ver == q * bs;
    DivOf(ver - 1, bs, q - 1);
    StripeStartBlock(q, w, bs);
  }

  /**
   * With blocks of 2 versions and 2 workers, version 2 is the last of worker
   * 0's first block, but the slot as written is worker 1's first block,
   * versions 3 and 4: the wait can end before version 2 is augmented.
   */
  lemma SnapshotSlotMisses()
    ensures SnapshotSlot(2, 2, 2) == Slot(1, 0) && Owner(2, 2, 2) == Slot(0, 0)
    ensures !(StripeStart(SnapshotSlot(2, 2, 2), 2, 2) <= 2)
  {
  }

  /**
   * The slot a reader of version `ver` should wait for: none for version 0,
   * which is built augmented, and otherwise the block holding `ver`.
   */
  function SnapshotWait(ver: nat, w: nat, bs: nat): (r: Option<Slot>)
    requires w >= 1 && bs >= 1
    ensures r == None <==> ver == 0
    ensures r.Some? ==> r.value.worker < w
    ensures r.Some? ==> StripeStart(r.value, w, bs) <= ver < StripeStart(r.value, w, bs) + bs
  {
    if ver == 0 then None
    else
      var s := Owner(ver, w, bs);
      OwnerBlock(ver, w, bs, s);
      Some(s)
  }

  /** Worker `id`'s `j`-th block (counting from 0), cut at `n`. */
  function Stripe(id: nat, j: nat, w: nat, bs: nat, n: nat): (nat, nat)
    requires id >= 1
  {
    var start := StripeStart(Slot(id - 1, j), w, bs);
    (start, Min(start + bs - 1, n))
  }

  /** A worker's next block starts `w` blocks further on. */
  lemma StripeNext(s: Slot, w: nat, bs: nat)
    ensures StripeStart(Slot(s.worker, s.pos + 1), w, bs) == StripeStart(s, w, bs) + w * bs
  {
    assert (s.pos + 1) * w * bs == s.pos * w * bs + w * bs;
  }

  /**
   * How many blocks a worker augments in `worker_thread_` once it fetches
   * the task numbers `fetched[i..]` in turn, its current block starting at
   * `start`: a fetched number that reaches the end of the current block
   * augments that one block and moves `w` blocks on, and a number past `n`
   * ends the loop. At most one block is augmented per fetch.
   */
  function Estimated(w: nat, bs: nat, n: nat, fetched: seq<nat>, i: nat, start: nat): (c: nat)
    requires bs >= 1 && i <= |fetched|
    ensures c <= |fetched| - i
    decreases |fetched| - i
  {
    if i == |fetched| then 0
    else
      var hit := fetched[i] >= Min(start + bs - 1, n);
      var rest := if fetched[i] > n then 0 else Estimated(w, bs, n, fetched, i + 1, if hit then start + w * bs else start);
      (if hit then 1 else 0) + rest
  }

  /** One fetch of `Estimated`: a number past `n` augments its block and ends the loop. */
  lemma EstimatedNext(w: nat, bs: nat, n: nat, fetched: seq<nat>, i: nat, start: nat)
    requires bs >= 1 && i < |fetched|
    ensures fetched[i] > n ==> Estimated(w, bs, n, fetched, i, start) == 1
    ensures fetched[i] <= n && fetched[i] >= Min(start + bs - 1, n) ==>
      Estimated(w, bs, n, fetched, i, start) == 1 + Estimated(w, bs, n, fetched, i + 1, start + w * bs)
    ensures fetched[i] < Min(start + bs - 1, n) ==>
      Estimated(w, bs, n, fetched, i, start) == Estimated(w, bs, n, fetched, i + 1, start)
  {
  }

  /**
   * The block bookkeeping of worker `id` (counting from 1) in
   * `worker_thread_`, given the task numbers it fetches in turn from the
   * shared counter. Each time a fetched number reaches the end of its
   * current block, it augments that block and moves `w` blocks on, until a
   * fetched number passes `n`. The ranges it augments are the first blocks
   * of its own stripe, in order, cut at `n`; their number, which
   * `num_estimated_` publishes, is the count of `Estimated`.
   */
  method EstimatedBlocks(id: nat, w: nat, bs: nat, n: nat, fetched: seq<nat>) returns (blocks: seq<(nat, nat)>)
    requires 1 <= id <= w && bs >= 1
    ensures |blocks| == Estimated(w, bs, n, fetched, 0, (id - 1) * bs + 1) <= |fetched|
    ensures forall j :: 0 <= j < |blocks| ==> blocks[j] == Stripe(id, j, w, bs, n)
  {
    blocks := [];
    var taskId := 0;
    var i := 0;
    var blockStart := (id - 1) * bs + 1;
    var blockEnd := Min(blockStart + bs - 1, n);
    ghost var total := Estimated(w, bs, n, fetched, 0, blockStart);
    while taskId <= n && i < |fetched|
      invariant 0 <= i <= |fetched|
      invariant (blockStart, blockEnd) == Stripe(id, |blocks|, w, bs, n)
      invariant forall j :: 0 <= j < |blocks| ==> blocks[j] == Stripe(id, j, w, bs, n)
      invariant taskId <= n ==> |blocks| + Estimated(w, bs, n, fetched, i, blockStart) == total
      invariant taskId > n ==> |blocks| == total
      decreases |fetched| - i
    {
      EstimatedNext(w, bs, n, fetched, i, blockStart);
      taskId := fetched[i];
      i := i + 1;
      if taskId >= blockEnd {
        StripeNext(Slot(id - 1, |blocks|), w, bs);
        blocks := blocks + [(blockStart, blockEnd)];
        blockStart := blockStart + w * bs;
        blockEnd := Min(blockStart + bs - 1, n);
      }
    }
  }

  /**
   * With 2 workers, blocks of one version and 6 versions, worker 1 fetches
   * task 1 and, worker 2 having fetched tasks 2 to 7 meanwhile, task 8. It
   * augments versions 1 and 3 and stops: its third block, version 5, is
   * never augmented, so its counter stays 2, and a reader of version 5
   * that waits for that counter to pass 2 waits forever. Worker 2's counter
   * reaches 4, so the slot as written lets the reader through to a root
   * that is not augmented.
   */
  lemma EstimatedStops()
    ensures Estimated(2, 1, 6, [1, 8], 0, 1) == 2
    ensures Stripe(1, 2, 2, 1, 6) == (5, 5)
    ensures SnapshotWait(5, 2, 1) == Some(Slot(0, 2))
    ensures Estimated(2, 1, 6, [2, 3, 4, 5, 6, 7], 0, 2) == 4
    ensures SnapshotSlot(5, 2, 1) == Slot(1, 2)
  {
    EstimatedFirst();
    EstimatedOther();
    WaitForFive();
  }

  /** Worker 1's count on the input of `EstimatedStops`. */
  lemma EstimatedFirst()
    ensures Estimated(2, 1, 6, [1, 8], 0, 1) == 2
  {
  }

  /** Worker 2's count on the input of `EstimatedStops`. */
  lemma EstimatedOther()
    ensures Estimated(2, 1, 6, [2, 3, 4, 5, 6, 7], 0, 2) == 4
  {
  }

  /** The slots a reader of version 5 waits for on the input of `EstimatedStops`. */
  lemma WaitForFive()
    ensures Stripe(1, 2, 2, 1, 6) == (5, 5)
    ensures SnapshotWait(5, 2, 1) == Some(Slot(0, 2))
    ensures SnapshotSlot(5, 2, 1) == Slot(1, 2)
  {
    assert Owner(5, 2, 1) == Slot(0, 2);
  }

  /** Later blocks of a stripe start later. */
  lemma StripeStartMono(worker: nat, p: nat, q: nat, w: nat, bs: nat)
    requires p <= q
    ensures StripeStart(Slot(worker, p), w, bs) <= StripeStart(Slot(worker, q), w, bs)
  {
    MulMono(p, q, w);
    MulMono(p * w, q * w, bs);
  }

  /**
   * Once a worker has augmented every block of its stripe that starts at or
   * before `n`, each reader of a version up to `n` that waits for this
   * worker finds its counter past the block it waits for.
   */
  lemma StripeCovers(id: nat, w: nat, bs: nat, n: nat, count: nat)
    requires 1 <= id <= w && bs >= 1
    requires StripeStart(Slot(id - 1, count), w, bs) > n
    ensures forall ver :: 1 <= ver <= n && SnapshotWait(ver, w, bs).value.worker == id - 1 ==> SnapshotWait(ver, w, bs).value.pos < count
  {
    forall ver | 1 <= ver <= n && SnapshotWait(ver, w, bs).value.worker == id - 1
      ensures SnapshotWait(ver, w, bs).value.pos < count
    {
      var s := SnapshotWait(ver, w, bs).value;
      if s.pos >= count {
        StripeStartMono(id - 1, count, s.pos, w, bs);
      }
    }
  }

  /**
   * `worker_thread_` as evidently intended: once a fetched number passes
   * `n`, the worker augments the rest of its stripe up to `n`. The ranges
   * are still its own stripe in order, and then every block that starts at
   * or before `n` is among them, so every reader of a version up to `n`
   * that waits for this worker is let through.
   */
  method EstimatedBlocksDrained(id: nat, w: nat, bs: nat, n: nat, fetched: seq<nat>) returns (blocks: seq<(nat, nat)>)
    requires 1 <= id <= w && bs >= 1
    ensures forall j :: 0 <= j < |blocks| ==> blocks[j] == Stripe(id, j, w, bs, n)
    ensures (exists i :: 0 <= i < |fetched| && fetched[i] > n) ==>
      StripeStart(Slot(id - 1, |blocks|), w, bs) > n &&
      forall ver :: 1 <= ver <= n && SnapshotWait(ver, w, bs).value.worker == id - 1 ==> SnapshotWait(ver, w, bs).value.pos < |blocks|
  {
    blocks := [];
    var taskId := 0;
    var i := 0;
    var blockStart := (id - 1) * bs + 1;
    var blockEnd := Min(blockStart + bs - 1, n);
    while taskId <= n && i < |fetched|
      invariant 0 <= i <= |fetched|
      invariant (blockStart, blockEnd) == Stripe(id, |blocks|, w, bs, n)
      invariant forall j :: 0 <= j < |blocks| ==> blocks[j] == Stripe(id, j, w, bs, n)
      invariant taskId <= n ==> forall j :: 0 <= j < i ==> fetched[j] <= n
      decreases |fetched| - i
    {
      taskId := fetched[i];
      i := i + 1;
      if taskId >= blockEnd {
        StripeNext(Slot(id - 1, |blocks|), w, bs);
        blocks := blocks + [(blockStart, blockEnd)];
        blockStart := blockStart + w * bs;
        blockEnd := Min(blockStart + bs - 1, n);
      }
    }
    if taskId > n {
      blocks := DrainStripe(id, w, bs, n, blocks);
      StripeCovers(id, w, bs, n, |blocks|);
    }
  }

  /** Augments the rest of worker `id`'s stripe after its first `|done|` blocks, up to `n`. */
  method DrainStripe(id: nat, w: nat, bs: nat, n: nat, done: seq<(nat, nat)>) returns (blocks: seq<(nat, nat)>)
    requires 1 <= id <= w && bs >= 1
    requires forall j :: 0 <= j < |done| ==> done[j] == Stripe(id, j, w, bs, n)
    ensures forall j :: 0 <= j < |blocks| ==> blocks[j] == Stripe(id, j, w, bs, n)
    ensures |done| <= |blocks| && StripeStart(Slot(id - 1, |blocks|), w, bs) > n
  {
    blocks := done;
    var blockStart := Stripe(id, |blocks|, w, bs, n).0;
    var blockEnd := Min(blockStart + bs - 1, n);
    MulMono(1, w, bs);
    while blockStart <= n
      invariant |done| <= |blocks|
      invariant (blockStart, blockEnd) == Stripe(id, |blocks|, w, bs, n)
      invariant forall j :: 0 <= j < |blocks| ==> blocks[j] == Stripe(id, j, w, bs, n)
      decreases n + 1 - blockStart
    {
      StripeNext(Slot(id - 1, |blocks|), w, bs);
      blocks := blocks + [(blockStart, blockEnd)];
      blockStart := blockStart + w * bs;
      blockEnd := Min(blockStart + bs - 1, n);
    }
  }
}
