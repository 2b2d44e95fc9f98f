/**
 * The pipelined engine's step machine. Each insert or delete task owns a
 * context that builds the task's new root one tree level per step: a step
 * copies the node on the search path, fills in the child that is shared with
 * the previous version and then decides the next level. A task may also be
 * finished in one go with the recursive `search_insert` / `search_delete`.
 *
 * The partially built tree is the chain of copied nodes from `root` down to
 * `t_cur`, each with the child already written; `frames` holds that chain
 * and `cur` what is written at `t_cur`'s place. The model runs one context
 * at a time and treats every node it reads as final.
 */
module Scheduler {
  import opened Shape
  import opened TreapNode
  import opened TreapInsert
  import opened TreapDelete

  datatype Status = Running | Finished
  datatype Operation = OpNone | OpInsert | OpDelete
  datatype Functor = FnSearch | FnSetRef | FnConcat
  datatype Direction = DirNone | DirLeft | DirRight

  /** `STAGE_DONE`, the all-ones `size_t`. */
  const StageDone: nat := 0xFFFF_FFFF_FFFF_FFFF

  /** A copied node above `t_cur`: its other child is `sibling`, the one towards `t_cur` is pending. */
  datatype Frame = Frame(pry: Prio, key: Key, data: Item, dir: Direction, sibling: Tree<Item>)

  function Plug(f: Frame, sub: Tree<Item>): Tree<Item>
  {
    if f.dir == DirLeft then Node(f.pry, f.key, f.data, sub, f.sibling)
    else Node(f.pry, f.key, f.data, f.sibling, sub)
  }

  /** The tree reachable from `root` when `hole` is written below the last frame. */
  function Assemble(frames: seq<Frame>, hole: Tree<Item>): Tree<Item>
    decreases |frames|
  {
    if frames == [] then hole else Plug(frames[0], Assemble(frames[1..], hole))
  }

  lemma {:induction false} AssembleSnoc(frames: seq<Frame>, f: Frame, hole: Tree<Item>)
    ensures Assemble(frames + [f], hole) == Assemble(frames, Plug(f, hole))
    decreases |frames|
  {
    if frames != [] {
      assert (frames + [f])[1..] == frames[1..] + [f];
      AssembleSnoc(frames[1..], f, hole);
    }
  }

  /** What the task computes from the previous version: the recursive operation. */
  function Apply(op: Operation, ver: nat, t: Tree<Item>, pry: Prio, key: Key): Tree<Item>
  {
    match op
    case OpNone => t
    case OpInsert => SearchInsert(ver, t, pry, key)
    case OpDelete => SearchDelete(ver, t, pry, key)
  }

  /** One level of the recursion above the insertion or deletion point. */
  lemma ApplyDescend(op: Operation, ver: nat, x: Tree<Item>, pry: Prio, key: Key)
    requires op != OpNone && x.Node? && x.pry > pry
    ensures key < x.key ==> Apply(op, ver, x, pry, key) == Node(x.pry, x.key, Stamp(ver, x.data), Apply(op, ver, x.left, pry, key), x.right)
    ensures !(key < x.key) ==> Apply(op, ver, x, pry, key) == Node(x.pry, x.key, Stamp(ver, x.data), x.left, Apply(op, ver, x.right, pry, key))
  {
  }

  /** The recursion at the key's own level. */
  lemma ApplyAtKey(op: Operation, ver: nat, x: Tree<Item>, pry: Prio, key: Key)
    requires op != OpNone && x.Node? && x.key == key && !(x.pry > pry)
    ensures op == OpInsert ==> Apply(op, ver, x, pry, key) == Node(x.pry, x.key, Stamp(ver, x.data).(val := x.data.val + 1), x.left, x.right)
    ensures op == OpDelete && x.data.val == 1 ==> Apply(op, ver, x, pry, key) == ProcessConcat(ver, x.left, x.right)
    ensures op == OpDelete && x.data.val != 1 ==> Apply(op, ver, x, pry, key) == Node(x.pry, x.key, Stamp(ver, x.data).(val := x.data.val - 1), x.left, x.right)
  {
  }

  /** One level of `process_concat`. */
  lemma ConcatDescend(ver: nat, l: Tree<Item>, r: Tree<Item>)
    requires l.Node? && r.Node?
    ensures l.pry > r.pry ==> ProcessConcat(ver, l, r) == Node(l.pry, l.key, Stamp(ver, l.data), l.left, ProcessConcat(ver, l.right, r))
    ensures !(l.pry > r.pry) ==> ProcessConcat(ver, l, r) == Node(r.pry, r.key, Stamp(ver, r.data), ProcessConcat(ver, l, r.left), r.right)
  {
  }

  class Context {
    var st: Status
    var op: Operation
    var fn: Functor
    var dir: Direction
    var tPast: Tree<Item>
    var ver: nat
    var pry: Prio
    var key: Key
    var tL: Tree<Item>
    var tR: Tree<Item>
    var stage: nat
    /** The copied nodes from `root` down to the parent of `t_cur`. */
    var frames: seq<Frame>
    /** What is written at `t_cur`'s place: the copy with its children so far. */
    var cur: Tree<Item>
    /** The tree the task must produce. */
    ghost var target: Tree<Item>

    /** A default context, as the scheduler allocates them. */
    constructor Init()
      ensures Initial()
    {
      st, op, fn, dir := Running, OpNone, FnSearch, DirNone;
      tPast, tL, tR, cur, frames := Nil, Nil, Nil, Nil, [];
      ver, pry, key, stage := 0, 0, 0, 0;
    }

    /** The field defaults of a context that no task has used yet. */
    predicate Initial()
      reads this
    {
      && st == Running && op == OpNone && fn == FnSearch && dir == DirNone && stage == 0
      && tPast == Nil && tL == Nil && tR == Nil && cur == Nil && frames == []
      && ver == 0 && pry == 0 && key == 0
    }

    /** The tree reachable from `root`. */
    function Root(): Tree<Item>
      reads this
    {
      Assemble(frames, cur)
    }

    /** `is_done`. */
    predicate IsDone()
      reads this
    {
      stage == StageDone
    }

    /** The subtree the task will eventually write at `t_cur`'s place. */
    ghost function Pending(): Tree<Item>
      reads this
    {
      match fn
      case FnConcat => ProcessConcat(ver, tL, tR)
      case _ => Apply(op, ver, tPast, pry, key)
    }

    /** How `cur` and the cursors stand between two steps. */
    ghost predicate Shaped()
      reads this
    {
      match fn
      case FnSearch =>
        && tPast.Node? && tPast.pry > pry && cur == WeakCopyAt(tPast, ver)
        && dir == (if key < tPast.key then DirLeft else DirRight)
      case FnSetRef =>
        && tPast.Node? && cur.Node? && cur.left == Nil && cur.right == Nil
        && Node(cur.pry, cur.key, cur.data, tPast.left, tPast.right) == Apply(op, ver, tPast, pry, key)
      case FnConcat =>
        && tL.Node? && tR.Node?
        && (tL.pry > tR.pry ==> cur == WeakCopyAt(tL, ver) && dir == DirRight)
        && (!(tL.pry > tR.pry) ==> cur == WeakCopyAt(tR, ver) && dir == DirLeft)
    }

    ghost predicate Valid()
      reads this
    {
      && (st == Finished <==> stage == StageDone)
      && (st == Running ==> op != OpNone && Shaped() && Assemble(frames, Pending()) == target)
      && (st == Finished ==> Root() == target)
    }

    /** Steps left at most: two per level while searching, one per level of either side while concatenating. */
    ghost function Measure(): nat
      reads this
    {
      if st == Finished then 0
      else match fn
        case FnSearch => 2 * Height(tPast)
        case FnSetRef => 1
        case FnConcat => Height(tL) + Height(tR)
    }

    /** `done`. */
    method Done()
      modifies this`st, this`stage
      ensures st == Finished && IsDone()
    {
      st := Finished;
      stage := StageDone;
    }

    /**
     * `concat_`: with one side empty the other side is written and the task
     * finishes; otherwise a copy of the higher-priority root is written and
     * the direction points to the side still to be concatenated.
     */
    method Concat()
      requires st == Running && stage != StageDone && fn == FnConcat && op != OpNone
      requires Assemble(frames, ProcessConcat(ver, tL, tR)) == target
      modifies this`cur, this`dir, this`st, this`stage
      ensures Valid()
      ensures st == Finished ==> cur == ProcessConcat(ver, tL, tR)
      ensures Measure() <= Height(tL) + Height(tR)
    {
      if tL == Nil {
        cur := tR;
        Done();
      } else if tR == Nil {
        cur := tL;
        Done();
      } else if tL.pry > tR.pry {
        cur := WeakCopyAt(tL, ver);
        dir := DirRight;
      } else {
        cur := WeakCopyAt(tR, ver);
        dir := DirLeft;
      }
    }
  
    /**
     * `update_`: one level of `search_insert` / `search_delete` at `t_cur`'s
     * place. Above the target level a copy is written and the search goes on;
     * at the key the counter changes in a copy whose children are set next
     * (or, for a last copy, the children are concatenated); below the target
     * level the new node is deployed, or the old subtree kept, and the task
     * finishes.
     */
    method Update()
      requires st == Running && stage != StageDone && fn == FnSearch && op != OpNone
      requires Assemble(frames, Apply(op, ver, tPast, pry, key)) == target
      modifies this`cur, this`dir, this`st, this`stage, this`fn, this`tL, this`tR
      ensures Valid()
      ensures st == Finished ==> cur == Apply(op, ver, tPast, pry, key)
      ensures Measure() <= 2 * Height(tPast)
    {
      if tPast == Nil {
        cur := if op == OpInsert then MakeNode(ver, pry, key) else Nil;
        Done();
      } else if tPast.pry > pry {
        cur := WeakCopyAt(tPast, ver);
        dir := if key < tPast.key then DirLeft else DirRight;
      } else if tPast.key == key {
        AtKey();
      } else {
        cur := if op == OpInsert then ProcessDeploy(ver, tPast, pry, key) else tPast;
        Done();
      }
    }
  
    /** The branch of `update_` that reaches the key at its own level. */
    method AtKey()
      requires st == Running && stage != StageDone && fn == FnSearch && op != OpNone
      requires tPast.Node? && tPast.key == key && !(tPast.pry > pry)
      requires Assemble(frames, Apply(op, ver, tPast, pry, key)) == target
      modifies this`cur, this`dir, this`st, this`stage, this`fn, this`tL, this`tR
      ensures Valid()
      ensures st == Finished ==> cur == Apply(op, ver, tPast, pry, key)
      ensures Measure() <= 2 * Height(tPast)
    {
      var c := WeakCopyAt(tPast, ver);
      ApplyAtKey(op, ver, tPast, pry, key);
      if op == OpInsert {
        cur := c.(data := c.data.(val := c.data.val + 1));
        fn := FnSetRef;
      } else if tPast.data.val == 1 {
        tL := tPast.left;
        tR := tPast.right;
        fn := FnConcat;
        Concat();
      } else {
        cur := c.(data := c.data.(val := c.data.val - 1));
        fn := FnSetRef;
      }
    }

    /**
     * `execute_one_step_`: fills in the copied node's child that is shared
     * with the previous version (or with the side not being concatenated)
     * and decides the next level; a counter copy gets both old children and
     * the task finishes. Every step brings the task closer to its end.
     */
    method ExecuteOneStep()
      requires Valid() && st == Running
      modifies this
      ensures Valid() && target == old(target)
      ensures Measure() < old(Measure())
    {
      if fn == FnSearch {
        SearchStep();
      } else if fn == FnSetRef {
        cur := Node(cur.pry, cur.key, cur.data, tPast.left, tPast.right);
        Done();
      } else {
        ConcatStep();
      }
    }

    /** The `SEARCH` case: the child off the search path is shared, the search goes one level down. */
    method SearchStep()
      requires Valid() && st == Running && fn == FnSearch
      modifies this
      ensures Valid() && target == old(target)
      ensures Measure() < old(Measure())
    {
      var x := tPast;
      ghost var sub := if dir == DirLeft then Apply(op, ver, x.left, pry, key) else Apply(op, ver, x.right, pry, key);
      var f := if dir == DirLeft then Frame(cur.pry, cur.key, cur.data, DirLeft, x.right)
               else Frame(cur.pry, cur.key, cur.data, DirRight, x.left);
      ApplyDescend(op, ver, x, pry, key);
      assert Plug(f, sub) == Apply(op, ver, x, pry, key);
      AssembleSnoc(frames, f, sub);
      frames := frames + [f];
      tPast := if dir == DirLeft then x.left else x.right;
      assert Assemble(frames, Apply(op, ver, tPast, pry, key)) == target;
      Update();
    }

    /** The `CONCAT` case: the outer child of the copied root is shared, the inner one is concatenated next. */
    method ConcatStep()
      requires Valid() && st == Running && fn == FnConcat
      modifies this
      ensures Valid() && target == old(target)
      ensures Measure() < old(Measure())
    {
      var l, r := tL, tR;
      ghost var sub := if dir == DirLeft then ProcessConcat(ver, l, r.left) else ProcessConcat(ver, l.right, r);
      var f := if dir == DirLeft then Frame(cur.pry, cur.key, cur.data, DirLeft, r.right)
               else Frame(cur.pry, cur.key, cur.data, DirRight, l.left);
      ConcatDescend(ver, l, r);
      assert Plug(f, sub) == ProcessConcat(ver, l, r);
      AssembleSnoc(frames, f, sub);
      frames := frames + [f];
      if dir == DirLeft {
        tR := r.left;
      } else {
        tL := l.right;
      }
      assert Assemble(frames, ProcessConcat(ver, tL, tR)) == target;
      Concat();
    }

    /**
     * `execute_to_complete_`: does what the remaining steps would do in one
     * go with the recursive operation, then finishes the task.
     */
    method ExecuteToComplete()
      requires Valid() && st == Running
      modifies this
      ensures Valid() && target == old(target) && st == Finished && Root() == target
    {
      if fn == FnSearch {
        var x := tPast;
        var f := if dir == DirLeft then Frame(cur.pry, cur.key, cur.data, DirLeft, x.right)
                 else Frame(cur.pry, cur.key, cur.data, DirRight, x.left);
        tPast := if dir == DirLeft then x.left else x.right;
        var sub := Apply(op, ver, tPast, pry, key);
        ApplyDescend(op, ver, x, pry, key);
        assert Plug(f, sub) == Apply(op, ver, x, pry, key);
        AssembleSnoc(frames, f, sub);
        frames := frames + [f];
        cur := sub;
      } else if fn == FnSetRef {
        cur := Node(cur.pry, cur.key, cur.data, tPast.left, tPast.right);
      } else {
        var l, r := tL, tR;
        var f := if dir == DirLeft then Frame(cur.pry, cur.key, cur.data, DirLeft, r.right)
                 else Frame(cur.pry, cur.key, cur.data, DirRight, l.left);
        if dir == DirLeft {
          tR := r.left;
        } else {
          tL := l.right;
        }
        var sub := ProcessConcat(ver, tL, tR);
        ConcatDescend(ver, l, r);
        assert Plug(f, sub) == ProcessConcat(ver, l, r);
        AssembleSnoc(frames, f, sub);
        frames := frames + [f];
        cur := sub;
      }
      Done();
    }

    /**
     * `init_context_` for task `ver`, whose previous version is `prev`: the
     * task takes the hash of its element as priority and runs the first level
     * of its operation at `root`; an `OP_NONE` task reuses `prev` and is done
     * at once.
     */
    method InitContext(o: Operation, elem: Key, ver': nat, prev: Tree<Item>, h: Key -> Prio)
      requires Initial()
      modifies this
      ensures Valid() && op == o && ver == ver'
      ensures target == Apply(o, ver', prev, h(elem), elem)
      ensures Measure() <= 2 * Height(prev)
      ensures o == OpNone ==> IsDone() && Root() == prev
    {
      op, ver := o, ver';
      if o != OpNone {
        pry, key, tPast := h(elem), elem, prev;
        Start();
      } else {
        cur, target := prev, prev;
        Done();
      }
    }

    /** The first level of an insert or delete, at the place of `root`. */
    method Start()
      requires st == Running && stage != StageDone && fn == FnSearch && op != OpNone && frames == []
      modifies this
      ensures Valid() && target == Apply(op, ver, tPast, pry, key)
      ensures op == old(op) && ver == old(ver) && pry == old(pry) && key == old(key) && tPast == old(tPast)
      ensures Measure() <= 2 * Height(tPast)
    {
      target := Apply(op, ver, tPast, pry, key);
      Update();
    }
  }

  /**
   * The pipe's view of a task: step it until it is done. It ends with the
   * tree the recursive operation gives, after at most the measured number of
   * steps.
   */
  method RunSteps(ctx: Context) returns (steps: nat)
    requires ctx.Valid()
    modifies ctx
    ensures ctx.Valid() && ctx.IsDone() && ctx.Root() == ctx.target == old(ctx.target)
    ensures steps <= old(ctx.Measure())
  {
    steps := 0;
    while !ctx.IsDone()
      invariant ctx.Valid() && ctx.target == old(ctx.target)
      invariant steps + ctx.Measure() <= old(ctx.Measure())
      decreases ctx.Measure()
    {
      ctx.ExecuteOneStep();
      steps := steps + 1;
    }
  }

  /**
   * A task stepped `switchAt` times (or until done) and then finished with
   * `execute_to_complete_`, as a worker does once the version it depends on
   * is committed.
   */
  method RunSwitching(ctx: Context, switchAt: nat) returns (steps: nat)
    requires ctx.Valid()
    modifies ctx
    ensures ctx.Valid() && ctx.IsDone() && ctx.Root() == ctx.target == old(ctx.target)
    ensures steps <= switchAt && steps <= old(ctx.Measure())
  {
    steps := 0;
    while !ctx.IsDone() && steps < switchAt
      invariant ctx.Valid() && ctx.target == old(ctx.target)
      invariant steps <= switchAt && steps + ctx.Measure() <= old(ctx.Measure())
      decreases ctx.Measure()
    {
      ctx.ExecuteOneStep();
      steps := steps + 1;
    }
    if !ctx.IsDone() {
      ctx.ExecuteToComplete();
    }
  }

  /**
   * A single task from `init_context_` to done, switching to
   * `execute_to_complete_` after `switchAt` steps: the new root is exactly
   * what `search_insert` / `search_delete` give on the previous version, and
   * the task takes at most twice the height of that version in steps.
   */
  method ProcessTask(o: Operation, elem: Key, ver: nat, prev: Tree<Item>, h: Key -> Prio, switchAt: nat)
    returns (root: Tree<Item>, steps: nat)
    ensures root == Apply(o, ver, prev, h(elem), elem)
    ensures steps <= 2 * Height(prev)
  {
    var ctx := new Context.Init();
    ctx.InitContext(o, elem, ver, prev, h);
    steps := RunSwitching(ctx, switchAt);
    root := ctx.Root();
  }

  /**
   * One round of the collector: from the committed prefix `committed`, it
   * advances over the tasks that are done, in version order, and stops at
   * the first that is not (or at the last task). Everything up to the new
   * prefix is done, so the commit count never moves backwards and never
   * skips an unfinished task.
   */
  method CommitScan(ctxs: array<Context>, numTasks: nat, committed: nat) returns (next: nat)
    requires numTasks < ctxs.Length && committed <= numTasks
    ensures committed <= next <= numTasks
    ensures forall i :: committed < i <= next ==> ctxs[i].IsDone()
    ensures next < numTasks ==> !ctxs[next + 1].IsDone()
  {
    next := committed;
    while next < numTasks
      invariant committed <= next <= numTasks
      invariant forall i :: committed < i <= next ==> ctxs[i].IsDone()
    {
      if !ctxs[next + 1].IsDone() {
        break;
      }
      next := next + 1;
    }
  }

  /** Chaining rounds: a done prefix stays a done prefix as it grows. */
  method CollectorRound(ctxs: array<Context>, numTasks: nat, committed: nat) returns (committed': nat)
    requires numTasks < ctxs.Length && committed <= numTasks
    requires forall i :: 1 <= i <= committed ==> ctxs[i].IsDone()
    ensures committed <= committed' <= numTasks
    ensures forall i :: 1 <= i <= committed' ==> ctxs[i].IsDone()
    ensures committed' < numTasks ==> !ctxs[committed' + 1].IsDone()
  {
    var next := CommitScan(ctxs, numTasks, committed);
    committed' := committed;
    if next > committed {
      committed' := next;
    }
  }
}
