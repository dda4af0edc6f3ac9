/** The run queue of kernel/cfs.c on its red-black tree.  Each method is proved to
    take the step `CfsSpec` describes: tree, cached leftmost node and node count
    together behave as the sorted sequence. */
module Cfs {
  import opened RbShape
  import opened RbMemory
  import RbTree
  import opened FixedPoint
  import opened CfsSpec
  import opened CfsInvariant
  import opened CfsFairness

  const S63: nat := 0x8000_0000_0000_0000

  /** A 64-bit word read as a signed number. */
  function Signed(w: int): int {
    if w < S63 then w else w - U64
  }

  /** The unsigned 64-bit sum. */
  function Plus64(a: nat, b: nat): nat {
    if a + b < U64 then a + b else a + b - U64
  }

  /** `max_vruntime`. */
  function MaxVruntime(m: nat, v: nat): (r: nat)
    requires m < U64 && v < U64
    ensures m < S63 && v < S63 ==> r == Max(m, v)
    ensures m < S63 && v >= S63 && v - U64 + S63 >= m ==> r == m
  {
    if Signed(Minus64(v, m)) > 0 then v else m
  }

  /** `min_vruntime`. */
  function MinVruntime(m: nat, v: nat): (r: nat)
    requires m < U64 && v < U64
    ensures m < S63 && v < S63 ==> r == Min(m, v)
  {
    if Signed(Minus64(v, m)) < 0 then v else m
  }

  /** `place_entity` for a new task. */
  function PlaceNew(v: nat, minV: nat, vslice: nat): (r: nat)
    requires v < S63 && minV + vslice < S63
    ensures r == Max(v, minV + vslice)
  {
    MaxVruntime(v, Plus64(minV, vslice))
  }

  /** `place_entity` for a task that wakes up; the subtraction may wrap around. */
  function PlaceBack(v: nat, minV: nat): (r: nat)
    requires v + CREDIT < S63 && minV < S63
    ensures r == Max(v, minV - CREDIT)
  {
    MaxVruntime(v, Minus64(minV, CREDIT))
  }

  /** The accounts are far from wrapping around. */
  ghost predicate InRange(s: State)
    requires Known(s)
  {
    && s.clock < S63 && s.minV < S63
    && (forall id :: id in s.ent ==>
          s.ent[id].vruntime + CREDIT < S63 && s.ent[id].execStart < S63 && s.ent[id].sumExec < S63)
  }

  /** One more tick keeps the accounts in range. */
  ghost predicate RoomForTick(s: State)
    requires Good(s)
  {
    var c := s.ent[s.current];
    && InRange(s) && s.clock + TICKUNIT < S63 && c.sumExec + TICKUNIT < S63
    && c.vruntime + Charge(TICKUNIT, c.inv) + CREDIT < S63
  }

  /** A task that has not been scheduled yet; its weight is set when it is. */
  predicate Unused(e: Entity) {
    e == Entity(0, 0, 0, 0, false, e.weight, e.inv) && Load(e.weight, e.inv)
  }

  /** The code can take this step without an account reaching 2^63. */
  ghost predicate Fits(s: State, step: Step)
    requires Good(s)
  {
    && InRange(s)
    && (step.Tick? ==> RoomForTick(s))
    && (step.Fork? ==> s.minV + step.vslice + CREDIT < S63)
  }

  /** Every step of the run fits. */
  ghost predicate AllFit(s: State, run: seq<Step>)
    requires Good(s) && Feasible(s, run)
    decreases |run|
  {
    run != [] ==>
      Fits(s, run[0]) && (StepKeeps(s, run[0]); AllFit(Apply(s, run[0]), run[1..]))
  }

  /** As long as the accounts at the start, 69 per unit of clock time and the slices of
      forked tasks together stay below 2^63, the 64-bit code is exact at every step. */
  lemma {:induction false} RunFits(s: State, run: seq<Step>, top: nat)
    requires Good(s) && Feasible(s, run) && Below(s, top) && top + Rises(run) + CREDIT < S63
    ensures AllFit(s, run)
    decreases |run|
  {
    if run != [] {
      StepFits(s, run[0], top);
      StepKeeps(s, run[0]);
      StepBelow(s, run[0], top);
      RunFits(Apply(s, run[0]), run[1..], top + Rise(run[0]));
    }
  }

  lemma {:induction false} StepFits(s: State, step: Step, top: nat)
    requires Good(s) && Below(s, top) && top + Rise(step) + CREDIT < S63
    ensures Fits(s, step)
  {
    ChargeBound(TICKUNIT, s.ent[s.current].inv);
  }

  /** A queue split by a key: insertion goes between. */
  lemma {:induction false} InsertBetween(ent: Entities, b: seq<Addr>, a: seq<Addr>, id: Addr)
    requires id in ent && forall x :: x in b + a ==> x in ent
    requires forall x :: x in b ==> ent[x].vruntime <= ent[id].vruntime
    requires forall x :: x in a ==> ent[id].vruntime < ent[x].vruntime
    ensures Insert(ent, b + a, id) == b + [id] + a
  {
    if b == [] {
      assert b + a == a && b + [id] + a == [id] + a;
      if a != [] { assert a[0] in a; }
    } else {
      var q := b + a;
      assert q[0] == b[0] && q[1..] == b[1..] + a;
      assert b[0] in b;
      InsertBetween(ent, b[1..], a, id);
      assert [b[0]] + (b[1..] + [id] + a) == b + [id] + a;
    }
  }

  /** The way down has left smaller-or-equal keys on one side, larger ones on the other. */
  ghost predicate Splits(ent: Entities, key: nat, p: Path) {
    && (forall x :: x in Before(p) ==> x in ent && ent[x].vruntime <= key)
    && (forall x :: x in RbShape.After(p) ==> x in ent && key < ent[x].vruntime)
  }

  lemma {:induction false} SplitSorted(ent: Entities, b: seq<Addr>, l: seq<Addr>, x: Addr, r: seq<Addr>, a: seq<Addr>)
    requires var q := b + (l + [x] + r) + a; (forall y :: y in q ==> y in ent) && Sorted(ent, q)
    ensures forall y :: y in l ==> y in ent && ent[y].vruntime <= ent[x].vruntime
    ensures forall y :: y in r ==> y in ent && ent[x].vruntime <= ent[y].vruntime
    ensures x in ent
  {
    var q := b + (l + [x] + r) + a;
    var k := |b| + |l|;
    assert q[k] == x;
    assert x in q;
    forall i | 0 <= i < |l| ensures l[i] in ent && ent[l[i]].vruntime <= ent[x].vruntime {
      assert q[|b| + i] == l[i];
      assert l[i] in q;
    }
    forall i | 0 <= i < |r| ensures r[i] in ent && ent[x].vruntime <= ent[r[i]].vruntime {
      assert q[k + 1 + i] == r[i];
      assert r[i] in q;
    }
  }

  /** One step down keeps the split. */
  lemma {:induction false} Descend(ent: Entities, key: nat, p: Path, t: RbShape.Tree)
    requires t.T? && Splits(ent, key, p)
    requires (forall y :: y in Inorder(Plug(p, t)) ==> y in ent) && Sorted(ent, Inorder(Plug(p, t)))
    ensures t.x in ent
    ensures key < ent[t.x].vruntime ==> Splits(ent, key, Step(Left, t.x, t.c, t.right, p))
    ensures key >= ent[t.x].vruntime ==> Splits(ent, key, Step(Right, t.x, t.c, t.left, p))
  {
    PlugInorder(p, t);
    SplitSorted(ent, Before(p), Inorder(t.left), t.x, Inorder(t.right), RbShape.After(p));
  }

  class RunQueue {
    const tree: RbTree.Tree
    var ent: Entities
    var leftMost: Addr
    var current: Addr
    var nrRunning: nat
    var clock: nat
    var minV: nat
    ghost var shape: RbShape.Tree

    ghost predicate Valid()
      reads this, tree
    {
      && Rep(tree.mem, tree.root, NULL, shape) && Distinct(shape) && RedBlack(shape)
      && Nodes(shape) <= ent.Keys <= tree.mem.Keys
      && leftMost == FirstOf(Inorder(shape)) && nrRunning == |Inorder(shape)|
    }

    /** The abstract state: the tree in order is the queue. */
    ghost function Abs(): State
      reads this
    {
      State(ent, Inorder(shape), current, clock, minV)
    }

    /** The state the boot code leaves behind (`sched_init`, `console_init`), from
        memory that starts out as zeros: nothing is queued and the first shell runs,
        with the weight of its nice level, placed by `place_entity`. */
    constructor (tasks: Entities, nodes: Mem, shell: Addr, nice: int, vslice: nat)
      requires tasks.Keys <= nodes.Keys && NULL !in tasks && shell in tasks && -20 <= nice < 20 && vslice < S63
      requires forall id :: id in tasks ==> Unused(tasks[id])
      ensures Valid() && fresh(tree) && Good(Abs())
      ensures var (weight, inv) := LoadWeight(nice);
              Abs() == State(tasks[shell := Entity(vslice, 0, 0, 0, true, weight, inv)], [], shell, 0, 0)
    {
      tree := new RbTree.Tree(nodes);
      var (weight, inv) := LoadWeight(nice);
      var v := PlaceNew(0, 0, vslice);
      ent := tasks[shell := tasks[shell].(onRq := true, weight := weight, inv := inv, vruntime := v)];
      leftMost, current, nrRunning, clock, minV := NULL, shell, 0, 0, 0;
      shape := Leaf;
    }

    /** `update_min_vruntime`, called with a running task. */
    method UpdateMinVruntime()
      requires Valid() && Known(Abs()) && current != NULL && minV < S63 && ent[current].vruntime < S63
      requires forall id :: id in Abs().queue ==> ent[id].vruntime < S63
      modifies this`minV
      ensures var v := ent[current].vruntime;
              minV == Max(old(minV), if Abs().queue == [] then v else Min(v, ent[Abs().queue[0]].vruntime))
    {
      InorderNodes(shape);
      RepNodes(tree.mem, tree.root, NULL, shape);
      var vruntime := ent[current].vruntime;
      if leftMost != NULL {
        vruntime := MinVruntime(vruntime, ent[leftMost].vruntime);
      }
      minV := MaxVruntime(minV, vruntime);
    }

    /** The accounting part of `update_curr`, in 64-bit arithmetic. */
    static method Bill(c: Entity, now: nat) returns (behind: bool, c': Entity)
      requires now < S63 && c.execStart < S63 && c.sumExec < S63 && Load(c.weight, c.inv)
      requires now > c.execStart ==> Billed(c, now).vruntime < S63
      ensures behind == (now > c.execStart)
      ensures behind ==> c' == Billed(c, now)
    {
      var delta := Minus64(now, c.execStart);
      behind, c' := false, c;
      if Signed(delta) <= 0 {
        return;
      }
      behind := true;
      var charge := CalcDeltaVruntime(delta, c.weight, c.inv);
      c' := c.(sumExec := Plus64(c.sumExec, delta), execStart := now, vruntime := Plus64(c.vruntime, charge));
    }

    /** `update_curr`. */
    method UpdateCurr()
      requires Valid() && Known(Abs()) && InRange(Abs())
      requires current != NULL && clock > ent[current].execStart ==> Billed(ent[current], clock).vruntime < S63
      modifies this`ent, this`minV
      ensures Valid() && Abs() == CfsSpec.UpdateCurr(old(Abs()))
      ensures current == NULL || clock <= old(ent[current].execStart) ==> ent == old(ent) && minV == old(minV)
    {
      if current == NULL {
        return;
      }
      var behind, c := Bill(ent[current], clock);
      if !behind {
        return;
      }
      ent := ent[current := c];
      UpdateMinVruntime();
    }

    /** `update_curr` again in the same moment does nothing. */
    method UpdateIdle()
      requires Valid() && Known(Abs()) && InRange(Abs()) && current != NULL && ent[current].execStart == clock
      modifies this`ent, this`minV
      ensures Valid() && ent == old(ent) && minV == old(minV)
    {
      UpdateCurr();
    }

    /** The descent of `__enqueue_entity`, in at most 2*log2(n+1) comparisons. */
    method FindPlace(key: nat) returns (parent: Addr, side: Side, left: bool, ghost path: Path)
      requires Valid() && Known(Abs()) && Sorted(ent, Abs().queue)
      ensures At(tree.mem, tree.root, NULL, parent, path, Leaf) && Plug(path, Leaf) == shape
      ensures path.Step? ==> path.d == side
      ensures Splits(ent, key, path) && left == (Before(path) == [])
      ensures Powers.Pow2(Len(path)) <= (nrRunning + 1) * (nrRunning + 1)
    {
      var link := tree.root;
      parent, side, left := NULL, Left, true;
      ghost var t := shape;
      path := Top;
      while link != NULL
        invariant At(tree.mem, tree.root, link, parent, path, t) && Plug(path, t) == shape
        invariant (path.Step? ==> path.d == side) && Splits(ent, key, path) && left == (Before(path) == [])
        decreases t
      {
        Descend(ent, key, path, t);
        parent := link;
        if key < ent[parent].vruntime {
          Down(tree.mem, tree.root, link, tree.mem[link].parent, path, Left, t.left, t.x, t.c, t.right);
          link, side := tree.mem[parent].left, Left;
          path, t := Step(Left, t.x, t.c, t.right, path), t.left;
        } else {
          Down(tree.mem, tree.root, link, tree.mem[link].parent, path, Right, t.right, t.x, t.c, t.left);
          link, side, left := tree.mem[parent].right, Right, false;
          path, t := Step(Right, t.x, t.c, t.left, path), t.right;
        }
      }
      DescentBound(path, shape);
    }

    /** `__enqueue_entity`: the task goes behind every queued task that is not larger. */
    method EnqueueEntity(s: Addr)
      requires Valid() && Known(Abs()) && s in ent && s !in Abs().queue && Sorted(ent, Abs().queue)
      modifies this`ent, this`leftMost, this`nrRunning, this`shape, tree
      ensures Valid() && ent == old(ent)[s := old(ent)[s].(onRq := true)]
      ensures Inorder(shape) == Insert(ent, old(Inorder(shape)), s)
    {
      var parent, side, left;
      ghost var path;
      parent, side, left, path := FindPlace(ent[s].vruntime);
      if left {
        leftMost := s;
      }
      InsertHere(ent, path, shape, s);
      LinkNode(s, parent, side, path);
      assert Nodes(shape) <= ent.Keys by { InorderNodes(shape); }
      ent := ent[s := ent[s].(onRq := true)];
      nrRunning := nrRunning + 1;
    }

    /** `rb_link_node` and `rb_insert_color` on the run queue's tree. */
    method LinkNode(s: Addr, parent: Addr, side: Side, ghost path: Path)
      requires At(tree.mem, tree.root, NULL, parent, path, Leaf) && Plug(path, Leaf) == shape && RedBlack(shape)
      requires path.Step? ==> path.d == side
      requires s != NULL && s in tree.mem && s !in PNodes(path)
      modifies this`shape, tree
      ensures Rep(tree.mem, tree.root, NULL, shape) && Distinct(shape) && RedBlack(shape)
      ensures Inorder(shape) == Inorder(Plug(path, T(Leaf, s, Red, Leaf))) && tree.mem.Keys == old(tree.mem.Keys)
    {
      DescentBound(path, shape);
      tree.Link(s, parent, side, path);
      shape := tree.InsertColor(s, path, T(Leaf, s, Red, Leaf));
    }

    /** `__dequeue_entity`, with the cached leftmost node moving to its successor. */
    method DequeueEntity(s: Addr)
      requires Valid() && s in Inorder(shape)
      modifies this`leftMost, this`nrRunning, this`shape, tree
      ensures Valid() && Inorder(shape) == Remove(old(Inorder(shape)), s)
    {
      ghost var q := Inorder(shape);
      InorderNodes(shape);
      InorderNoRepeats(shape);
      RemoveFacts(q, s);
      if leftMost == s {
        var next := tree.Next(s, Right, shape);
        leftMost := next;
      }
      nrRunning := nrRunning - 1;
      shape := tree.Erase(s, shape);
      InorderNodes(shape);
    }

    /** `put_prev_task`, for the running task. */
    method PutPrevTask()
      requires Valid() && Core(Abs()) && current != NULL
      requires ent[current].onRq ==> InRange(Abs())
      requires ent[current].onRq && clock > ent[current].execStart ==> Billed(ent[current], clock).vruntime < S63
      modifies this`ent, this`minV, this`leftMost, this`nrRunning, this`shape, this`current, tree
      ensures Valid() && Abs() == PutPrev(old(Abs()))
    {
      var prev := current;
      if ent[prev].onRq {
        UpdateCurrKeeps(Abs());
        UpdateCurr();
        EnqueueEntity(prev);
      }
      current := NULL;
    }

    /** The head of the queue, cached, starts to run. */
    method PickEntity()
      requires Valid() && Core(Abs()) && current == NULL && nrRunning > 0
      modifies this`ent, this`leftMost, this`nrRunning, this`shape, this`current, tree
      ensures Valid() && Abs() == Pick(old(Abs()))
    {
      var next := leftMost;
      RemoveFacts(Inorder(shape), next);
      DequeueEntity(next);
      current := next;
      ent := ent[next := ent[next].(execStart := clock, prevSumExec := ent[next].sumExec)];
    }

    /** `pick_next_task`.  With nobody queued the processor halts. */
    method PickNext() returns (halted: bool)
      requires Valid() && Core(Abs()) && current != NULL
      requires nrRunning > 0 && ent[current].onRq ==> InRange(Abs())
      requires nrRunning > 0 && ent[current].onRq && clock > ent[current].execStart ==>
                 Billed(ent[current], clock).vruntime < S63
      modifies this`ent, this`minV, this`leftMost, this`nrRunning, this`shape, this`current, tree
      ensures Valid() && halted == (old(Abs()).queue == [])
      ensures halted ==> Abs() == old(Abs())
      ensures !halted ==> PutPrev(old(Abs())).queue != [] && Abs() == Schedule(old(Abs()))
    {
      if nrRunning == 0 {
        return true;
      }
      ScheduleKeeps(Abs());
      PutPrevKeeps(Abs());
      PutPrevTask();
      PickEntity();
      halted := false;
    }

    /** `__schedule`, up to the context switch. */
    method Reschedule() returns (halted: bool)
      requires Valid() && Core(Abs()) && current != NULL
      requires nrRunning > 0 && ent[current].onRq ==> InRange(Abs())
      requires nrRunning > 0 && ent[current].onRq && clock > ent[current].execStart ==>
                 Billed(ent[current], clock).vruntime < S63
      modifies this`ent, this`minV, this`leftMost, this`nrRunning, this`shape, this`current, tree
      ensures Valid() && halted == (old(Abs()).queue == [])
      ensures halted ==> Abs() == old(Abs())
      ensures !halted ==> PutPrev(old(Abs())).queue != [] && Abs() == Schedule(old(Abs()))
    {
      halted := PickNext();
    }

    /** The clock and accounting part of `do_timer`. */
    method TimerCharge()
      requires Valid() && Good(Abs()) && RoomForTick(Abs())
      modifies this`clock, this`ent, this`minV
      ensures Valid() && Abs() == Charged(old(Abs()))
    {
      RoomLater(Abs());
      clock := clock + TICKUNIT;
      UpdateCurr();
    }

    /** `do_timer`, given the time slice of the running task. */
    method DoTimer(slice: nat)
      requires Valid() && Good(Abs()) && RoomForTick(Abs())
      modifies this, tree
      ensures Valid() && Good(Abs()) && Abs() == DoTick(old(Abs()), slice)
    {
      ChargedKeeps(Abs());
      ChargedInRange(Abs());
      TickKeeps(Abs(), slice);
      TimerCharge();
      if nrRunning != 0 && CheckPreempt(ent[current], minV, slice) {
        assert ent[current].execStart == clock;
        var halted := Reschedule();
      }
    }

    /** `sched_fork` and `activate_task`, given the new task's virtual time slice. */
    method SchedFork(task: Addr, nice: int, vslice: nat)
      requires Valid() && Good(Abs()) && InRange(Abs()) && minV + vslice + CREDIT < S63
      requires task in ent && !ent[task].onRq && -20 <= nice < 20
      modifies this, tree
      ensures Valid() && Good(Abs()) && Abs() == DoFork(old(Abs()), task, nice, vslice)
    {
      var (weight, inv) := LoadWeight(nice);
      ForkLoad(task, weight, inv, vslice);
    }

    method ForkLoad(task: Addr, weight: nat, inv: nat, vslice: nat)
      requires Valid() && Good(Abs()) && InRange(Abs()) && minV + vslice + CREDIT < S63
      requires task in ent && !ent[task].onRq && Load(weight, inv)
      modifies this, tree
      ensures Valid() && Good(Abs()) && Abs() == DoForkLoad(old(Abs()), task, weight, inv, vslice)
    {
      ForkKeeps(Abs(), task, weight, inv, vslice);
      ForkIs(Abs(), task, weight, inv, vslice);
      UpdateIdle();
      var v := PlaceNew(ent[current].vruntime, minV, vslice);
      AdmitTask(task, ent[task].(weight := weight, inv := inv, vruntime := v));
    }

    /** `enqueue_entity` for a task that neither runs nor waits: its fields are
        written and it is queued. */
    method AdmitTask(task: Addr, e: Entity)
      requires Valid() && Core(Abs()) && current != NULL && ent[current].execStart == clock
      requires task in ent && task !in Abs().queue && task != current && Load(e.weight, e.inv)
      modifies this`ent, this`leftMost, this`nrRunning, this`shape, tree
      ensures Valid() && Abs() == Admit(old(Abs()), task, e)
    {
      AdmitReady(Abs(), task, e);
      ent := ent[task := e];
      EnqueueEntity(task);
    }

    /** `enqueue_task(task, 1)`. */
    method Wakeup(task: Addr)
      requires Valid() && Core(Abs()) && InRange(Abs()) && current != NULL && ent[current].execStart == clock
      requires task in ent && (task != current || ent[task].onRq)
      modifies this, tree
      ensures Valid() && Abs() == DoWake(old(Abs()), task) && Core(Abs())
    {
      WakeKeeps(Abs(), task);
      EnqueueTask(task);
    }

    method EnqueueTask(task: Addr)
      requires Valid() && Core(Abs()) && InRange(Abs()) && current != NULL && ent[current].execStart == clock
      requires task in ent && (task != current || ent[task].onRq)
      modifies this, tree
      ensures Valid() && Abs() == DoWake(old(Abs()), task)
    {
      if !ent[task].onRq {
        ghost var e := Refreshed(Abs(), task);
        WakeIs(Abs(), task);
        EnqueueWoken(task, e);
      }
    }

    /** `enqueue_entity(task, 1)`. */
    method EnqueueWoken(task: Addr, ghost e: Entity)
      requires Valid() && Core(Abs()) && InRange(Abs()) && current != NULL && ent[current].execStart == clock
      requires task in ent && task != current && !ent[task].onRq && e == Refreshed(Abs(), task)
      modifies this, tree
      ensures Valid() && Abs() == Admit(old(Abs()), task, e)
    {
      UpdateIdle();
      var v := PlaceBack(ent[task].vruntime, minV);
      var placed := ent[task].(vruntime := v);
      assert placed == e;
      AdmitTask(task, placed);
    }

    /** `sched_sleep`.  When nobody else is waiting the processor halts. */
    method SchedSleep() returns (halted: bool)
      requires Valid() && Good(Abs()) && InRange(Abs())
      modifies this, tree
      ensures Valid() && halted == (old(Abs()).queue == [])
      ensures halted ==> Abs() == Leave(old(Abs()))
      ensures !halted ==> Good(Abs()) && Abs() == DoSleep(old(Abs()))
    {
      LeaveKeeps(Abs());
      if nrRunning > 0 { ScheduleKeeps(Leave(Abs())); }
      ent := ent[current := ent[current].(onRq := false)];
      halted := Reschedule();
    }

    /** `sched_exit`.  When that leaves nobody to run the processor halts. */
    method SchedExit(parent: Addr, console: bool) returns (halted: bool)
      requires Valid() && Good(Abs()) && InRange(Abs()) && parent in ent && parent != current
      modifies this, tree
      ensures Valid() && halted == (ExitReady(old(Abs()), parent, console).queue == [])
      ensures halted ==> Abs() == ExitReady(old(Abs()), parent, console)
      ensures !halted ==> Good(Abs()) && Abs() == DoExit(old(Abs()), parent, console)
    {
      ExitCore(Abs(), parent, console);
      ExitPrepare(parent, console);
      if nrRunning > 0 { ScheduleKeeps(Abs()); }
      halted := Reschedule();
    }

    /** One entry point of the scheduler. */
    method Perform(step: Step)
      requires Valid() && Enabled(Abs(), step) && Fits(Abs(), step)
      modifies this, tree
      ensures Valid() && Good(Abs()) && Abs() == Apply(old(Abs()), step)
    {
      match step
      case Tick(slice) => DoTimer(slice);
      case Fork(id, nice, vslice) => SchedFork(id, nice, vslice);
      case Sleep => var halted := SchedSleep();
      case Wake(id) => StepKeeps(Abs(), step); Wakeup(id);
      case Exit(parent, console) =>
        ExitQueue(Abs(), parent, console);
        var halted := SchedExit(parent, console);
    }

    /** Any run of the tree-based 64-bit code is the run of the list model. */
    method Execute(run: seq<Step>, ghost top: nat)
      requires Valid() && Good(Abs()) && Feasible(Abs(), run)
      requires Below(Abs(), top) && top + Rises(run) + CREDIT < S63
      modifies this, tree
      ensures Valid() && Good(Abs()) && Abs() == CfsInvariant.After(old(Abs()), run)
      decreases |run|
    {
      if run != [] {
        StepFits(Abs(), run[0], top);
        StepBelow(Abs(), run[0], top);
        Perform(run[0]);
        Execute(run[1..], top + Rise(run[0]));
      }
    }

    /** `sched_exit` with its `sched_wakeup`, up to the switch. */
    method ExitPrepare(parent: Addr, console: bool)
      requires Valid() && Good(Abs()) && InRange(Abs()) && parent in ent && parent != current
      modifies this, tree
      ensures Valid() && Abs() == ExitReady(old(Abs()), parent, console)
    {
      LeaveKeeps(Abs());
      ent := ent[current := ent[current].(onRq := false)];
      if console {
        Wakeup(parent);
      }
    }
  }

  /** Writing the fields of a task that is not queued leaves the queue sorted. */
  lemma {:induction false} AdmitReady(s: State, task: Addr, e: Entity)
    requires Core(s) && task in s.ent && task !in s.queue && Load(e.weight, e.inv)
    ensures var s' := s.(ent := s.ent[task := e]); Known(s') && Sorted(s'.ent, s'.queue)
  {
    assert forall x :: x in s.queue ==> s.ent[task := e][x] == s.ent[x];
  }

  lemma {:induction false} RoomLater(s: State)
    requires Good(s) && RoomForTick(s)
    ensures var s0 := s.(clock := s.clock + TICKUNIT);
            && Known(s0) && InRange(s0) && CfsSpec.UpdateCurr(s0) == Charged(s)
            && s0.clock > s0.ent[s0.current].execStart && Billed(s0.ent[s0.current], s0.clock).vruntime < S63
  {
  }

  lemma {:induction false} ChargedInRange(s: State)
    requires Good(s) && RoomForTick(s)
    ensures InRange(Charged(s))
  {
    if s.queue != [] { assert s.queue[0] in s.queue; }
  }

  lemma {:induction false} RemoveFacts(q: seq<Addr>, s: Addr)
    requires NoRepeats(q) && s in q
    ensures |Remove(q, s)| == |q| - 1
    ensures forall x :: x in Remove(q, s) ==> x in q
    ensures q[0] == s ==> Remove(q, s) == q[1..] && Neighbor(q, s, Right) == FirstOf(q[1..])
    ensures q[0] != s ==> FirstOf(Remove(q, s)) == q[0]
  {
    if q[0] != s {
      assert NoRepeats(q[1..]);
      RemoveFacts(q[1..], s);
    } else {
      NeighborAt(q, 0, Right);
    }
  }

  lemma {:induction false} DescentBound(p: Path, shape: RbShape.Tree)
    requires Plug(p, Leaf) == shape && RedBlack(shape)
    ensures Powers.Pow2(Len(p)) <= (|Inorder(shape)| + 1) * (|Inorder(shape)| + 1)
    ensures Rising(p, T(Leaf, NULL, Red, Leaf))
  {
    PathHeight(p, Leaf);
    Powers.Pow2Grows(Len(p), Height(shape));
    HeightBound(shape);
    PlugRedBlack(p, Leaf);
  }

  /** Linking at the end of the descent is insertion into the queue. */
  lemma {:induction false} InsertHere(ent: Entities, p: Path, shape: RbShape.Tree, s: Addr)
    requires Plug(p, Leaf) == shape && s in ent && s !in Inorder(shape) && Splits(ent, ent[s].vruntime, p)
    ensures s !in PNodes(p)
    ensures Inorder(shape) == Before(p) + RbShape.After(p)
    ensures (forall x :: x in Inorder(shape) ==> x in ent)
    ensures var q := Inorder(Plug(p, T(Leaf, s, Red, Leaf)));
            && q == Insert(ent[s := ent[s].(onRq := true)], Inorder(shape), s)
            && |q| == |Inorder(shape)| + 1
            && FirstOf(q) == (if Before(p) == [] then s else FirstOf(Inorder(shape)))
            && (forall x :: x in q <==> x == s || x in Inorder(shape))
  {
    var b, a := Before(p), RbShape.After(p);
    InorderHere(p, s);
    Among(b, s, a);
    PathInorderNodes(p);
    InsertBetween(ent[s := ent[s].(onRq := true)], b, a, s);
  }

  lemma {:induction false} InorderHere(p: Path, s: Addr)
    ensures Inorder(Plug(p, Leaf)) == Before(p) + RbShape.After(p)
    ensures Inorder(Plug(p, T(Leaf, s, Red, Leaf))) == Before(p) + [s] + RbShape.After(p)
  {
    PlugInorder(p, Leaf);
    PlugInorder(p, T(Leaf, s, Red, Leaf));
    assert Before(p) + [] == Before(p);
    assert Inorder(T(Leaf, s, Red, Leaf)) == [s];
  }

  lemma {:induction false} Among(b: seq<Addr>, s: Addr, a: seq<Addr>)
    ensures forall x :: x in b + a <==> x in b || x in a
    ensures forall x :: x in b + [s] + a <==> x == s || x in b + a
    ensures FirstOf(b + [s] + a) == if b == [] then s else FirstOf(b + a)
  {
  }
}
