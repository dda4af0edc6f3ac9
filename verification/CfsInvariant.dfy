/** What holds in every reachable scheduler state. */
module CfsInvariant {
  import opened RbShape
  import opened FixedPoint
  import opened CfsSpec

  ghost predicate Sorted(ent: Entities, q: seq<Addr>)
    requires forall id :: id in q ==> id in ent
  {
    forall i, j :: 0 <= i < j < |q| ==> ent[q[i]].vruntime <= ent[q[j]].vruntime
  }

  /** No task is further behind the run queue's minimum than the wake-up credit. */
  ghost predicate Lagging(s: State)
    requires Known(s)
  {
    forall id :: id in s.ent && (id in s.queue || id == s.current) ==> s.ent[id].vruntime + CREDIT >= s.minV
  }

  /** Holds throughout a step, while the task `moving` is neither here nor there. */
  ghost predicate CoreBut(s: State, moving: Addr) {
    && Known(s) && NoRepeats(s.queue) && Sorted(s.ent, s.queue) && s.current !in s.queue
    && (forall id :: id in s.queue ==> s.ent[id].onRq)
    && (forall id :: id in s.ent && s.ent[id].onRq ==> id in s.queue || id == s.current || id == moving)
    && Lagging(s)
  }

  ghost predicate Core(s: State) {
    CoreBut(s, NULL)
  }

  /** Holds between steps: the queue is sorted and without repeats, exactly the
      queued tasks and the running one are marked `on_rq`, the running task is not
      queued, has been charged up to the present moment, and was dispatched before. */
  ghost predicate Good(s: State) {
    && Core(s) && s.current != NULL && s.ent[s.current].onRq && s.ent[s.current].execStart == s.clock
    && s.ent[s.current].prevSumExec <= s.ent[s.current].sumExec
  }

  // ---------- insertion ----------

  /** A task goes behind every task that is not larger: ties keep their order. */
  lemma {:induction false} InsertPlace(ent: Entities, q: seq<Addr>, id: Addr) returns (k: nat)
    requires id in ent && (forall x :: x in q ==> x in ent) && Sorted(ent, q)
    ensures k <= |q| && Insert(ent, q, id) == q[..k] + [id] + q[k..]
    ensures forall i :: 0 <= i < k ==> ent[q[i]].vruntime <= ent[id].vruntime
    ensures forall i :: k <= i < |q| ==> ent[q[i]].vruntime > ent[id].vruntime
  {
    if q == [] || ent[id].vruntime < ent[q[0]].vruntime {
      k := 0;
      assert q[..0] + [id] + q[0..] == [id] + q;
    } else {
      var r := q[1..];
      assert forall i :: 0 <= i < |r| ==> r[i] == q[i + 1];
      var k' := InsertPlace(ent, r, id);
      k := k' + 1;
      InsertDeeper(ent, q, r, id, k');
    }
  }

  lemma {:induction false} InsertDeeper(ent: Entities, q: seq<Addr>, r: seq<Addr>, id: Addr, k: nat)
    requires q != [] && r == q[1..] && k <= |r| && id in ent && (forall x :: x in q ==> x in ent)
    requires ent[q[0]].vruntime <= ent[id].vruntime
    requires forall i :: 0 <= i < k ==> ent[r[i]].vruntime <= ent[id].vruntime
    requires forall i :: k <= i < |r| ==> ent[r[i]].vruntime > ent[id].vruntime
    ensures [q[0]] + (r[..k] + [id] + r[k..]) == q[..k + 1] + [id] + q[k + 1..]
    ensures forall i :: 0 <= i < k + 1 ==> ent[q[i]].vruntime <= ent[id].vruntime
    ensures forall i :: k + 1 <= i < |q| ==> ent[q[i]].vruntime > ent[id].vruntime
  {
    assert forall i :: 0 < i < |q| ==> q[i] == r[i - 1];
  }

  lemma {:induction false} InsertKeeps(ent: Entities, q: seq<Addr>, id: Addr)
    requires id in ent && (forall x :: x in q ==> x in ent) && Sorted(ent, q) && NoRepeats(q) && id !in q
    ensures var q' := Insert(ent, q, id);
            && (forall x :: x in q' <==> x == id || x in q)
            && Sorted(ent, q') && NoRepeats(q') && |q'| == |q| + 1
  {
    var k := InsertPlace(ent, q, id);
    SpliceIn(q, id, k, Insert(ent, q, id));
  }

  lemma {:induction false} SpliceIn(q: seq<Addr>, id: Addr, k: nat, q': seq<Addr>)
    requires k <= |q| && q' == q[..k] + [id] + q[k..]
    ensures |q'| == |q| + 1 && q'[k] == id
    ensures forall i :: 0 <= i < |q'| && i != k ==> q'[i] == q[if i < k then i else i - 1]
    ensures forall x :: x in q' <==> x == id || x in q
  {
    assert q == q[..k] + q[k..];
  }

  // ---------- the parts of a step ----------

  lemma {:induction false} UpdateCurrKeeps(s: State)
    requires Core(s) && s.current != NULL
    ensures var s' := UpdateCurr(s);
            && Core(s') && s'.minV >= s.minV
            && s'.ent[s.current].vruntime >= s.ent[s.current].vruntime
            && s'.ent[s.current].execStart == Max(s.clock, s.ent[s.current].execStart)
            && s'.ent[s.current].onRq == s.ent[s.current].onRq
            && s'.ent[s.current].prevSumExec == s.ent[s.current].prevSumExec
            && s'.ent[s.current].sumExec >= s.ent[s.current].sumExec
            && (forall id :: id in s.ent && id != s.current ==> s'.ent[id] == s.ent[id])
  {
    var s' := UpdateCurr(s);
    assert forall id :: id in s.queue ==> s'.ent[id] == s.ent[id];
    if s.queue != [] {
      assert s.queue[0] in s.queue;
      forall id | id in s.queue ensures s.ent[s.queue[0]].vruntime <= s.ent[id].vruntime {
        var i :| 0 <= i < |s.queue| && s.queue[i] == id;
      }
    }
  }

  lemma {:induction false} EnqueueKeeps(s: State, id: Addr)
    requires CoreBut(s, id) && id in s.ent && id !in s.queue && id != s.current
    requires s.ent[id].vruntime + CREDIT >= s.minV
    ensures Core(Enqueue(s, id)) && Enqueue(s, id).queue != []
    ensures forall x :: x in s.ent && x != id ==> Enqueue(s, id).ent[x] == s.ent[x]
    ensures forall x :: x in Enqueue(s, id).queue <==> x == id || x in s.queue
  {
    var ent := s.ent[id := s.ent[id].(onRq := true)];
    assert forall x :: x in s.queue ==> ent[x] == s.ent[x];
    InsertKeeps(ent, s.queue, id);
  }

  lemma {:induction false} PutPrevKeeps(s: State)
    requires Core(s) && s.current != NULL
    ensures Core(PutPrev(s)) && PutPrev(s).minV >= s.minV
    ensures s.ent[s.current].onRq || s.queue != [] ==> PutPrev(s).queue != []
  {
    if s.ent[s.current].onRq {
      UpdateCurrKeeps(s);
      var s1 := UpdateCurr(s);
      EnqueueKeeps(s1.(current := NULL), s.current);
    }
  }

  lemma {:induction false} PickKeeps(s: State)
    requires Core(s) && s.current == NULL && s.queue != []
    ensures Good(Pick(s))
  {
    DropHead(s.ent, s.queue);
  }

  lemma {:induction false} DropHead(ent: Entities, q: seq<Addr>)
    requires q != [] && NoRepeats(q) && (forall id :: id in q ==> id in ent) && Sorted(ent, q)
    ensures forall id :: id in q <==> id == q[0] || id in q[1..]
    ensures q[0] !in q[1..] && NoRepeats(q[1..]) && Sorted(ent, q[1..])
  {
    assert q == [q[0]] + q[1..];
    assert forall i :: 0 <= i < |q[1..]| ==> q[1..][i] == q[i + 1];
  }

  lemma {:induction false} ScheduleKeeps(s: State)
    requires Core(s) && s.current != NULL
    requires s.ent[s.current].onRq || s.queue != []
    ensures PutPrev(s).queue != [] && Good(Schedule(s)) && Schedule(s).minV >= s.minV
  {
    PutPrevKeeps(s);
    PickKeeps(PutPrev(s));
  }

  // ---------- the steps ----------

  lemma {:induction false} ChargedKeeps(s: State)
    requires Good(s)
    ensures Good(Charged(s)) && Charged(s).minV >= s.minV
  {
    var later := s.(clock := s.clock + TICKUNIT);
    LaterIs(s, later);
    ChargeKeeps(later, Charged(s));
  }

  lemma {:induction false} LaterIs(s: State, later: State)
    requires Good(s) && later == s.(clock := s.clock + TICKUNIT)
    ensures Core(later) && later.current != NULL && later.ent[later.current].onRq
    ensures later.ent[later.current].execStart <= later.clock
    ensures later.ent[later.current].prevSumExec <= later.ent[later.current].sumExec
  {
  }

  lemma {:induction false} ChargeKeeps(s: State, s': State)
    requires Core(s) && s.current != NULL && s.ent[s.current].onRq && s.ent[s.current].execStart <= s.clock
    requires s.ent[s.current].prevSumExec <= s.ent[s.current].sumExec && s' == UpdateCurr(s)
    ensures Good(s') && s'.minV >= s.minV
  {
    UpdateCurrKeeps(s);
  }

  lemma {:induction false} TickKeeps(s: State, slice: nat)
    requires Good(s)
    ensures Good(DoTick(s, slice)) && DoTick(s, slice).minV >= s.minV
  {
    ChargedKeeps(s);
    ScheduleKeeps(Charged(s));
  }

  /** Queueing a task that neither runs nor waits, placed not too far behind. */
  lemma {:induction false} AdmitKeeps(s: State, id: Addr, e: Entity)
    requires Core(s) && id in s.ent && id !in s.queue && id != s.current && Load(e.weight, e.inv)
    requires e.vruntime + CREDIT >= s.minV
    ensures var s' := Admit(s, id, e);
            && Core(s') && s'.minV == s.minV && s'.clock == s.clock && id in s'.queue
            && (forall x :: x in s.ent && x != id ==> s'.ent[x] == s.ent[x])
            && (forall x :: x in s.queue ==> x in s'.queue)
  {
    var s1 := s.(ent := s.ent[id := e]);
    assert forall x :: x in s.queue ==> s1.ent[x] == s.ent[x];
    assert CoreBut(s1, id);
    EnqueueKeeps(s1, id);
  }

  lemma {:induction false} UpdateCurrIdle(s: State)
    requires Known(s) && (s.current != NULL ==> s.ent[s.current].execStart == s.clock)
    ensures UpdateCurr(s) == s
  {
  }

  /** With the running task charged up to date, a fork and a wake-up just queue. */
  lemma {:induction false} ForkIs(s: State, id: Addr, weight: nat, inv: nat, vslice: nat)
    requires Known(s) && s.current != NULL && s.ent[s.current].execStart == s.clock
    requires id in s.ent && id != s.current && Load(weight, inv)
    ensures var v := Max(s.ent[s.current].vruntime, s.minV + vslice);
            var e := s.ent[id].(weight := weight, inv := inv, vruntime := v);
            DoForkLoad(s, id, weight, inv, vslice) == Admit(s, id, e)
  {
    UpdateCurrIdle(s);
  }

  lemma {:induction false} WakeIs(s: State, id: Addr)
    requires Known(s) && s.current != NULL && s.ent[s.current].execStart == s.clock
    requires id in s.ent && id != s.current && !s.ent[id].onRq
    ensures DoWake(s, id) == Admit(s, id, Refreshed(s, id))
  {
    UpdateCurrIdle(s);
  }

  lemma {:induction false} ForkKeeps(s: State, id: Addr, weight: nat, inv: nat, vslice: nat)
    requires Good(s) && id in s.ent && !s.ent[id].onRq && Load(weight, inv)
    ensures var s' := DoForkLoad(s, id, weight, inv, vslice); Good(s') && s'.minV >= s.minV
  {
    ForkIs(s, id, weight, inv, vslice);
    var v := Max(s.ent[s.current].vruntime, s.minV + vslice);
    AdmitKeeps(s, id, s.ent[id].(weight := weight, inv := inv, vruntime := v));
  }

  lemma {:induction false} WakeKeeps(s: State, id: Addr)
    requires Core(s) && s.current != NULL && id in s.ent && s.ent[s.current].execStart == s.clock
    requires id != s.current || s.ent[id].onRq
    ensures var s' := DoWake(s, id);
            && Core(s') && s'.minV >= s.minV && s'.clock == s.clock && s'.ent[s.current] == s.ent[s.current]
            && (forall x :: x in s.queue ==> x in s'.queue) && (s.ent[id].onRq || id in s'.queue)
  {
    if !s.ent[id].onRq {
      WakeIs(s, id);
      AdmitKeeps(s, id, Refreshed(s, id));
    }
  }

  lemma {:induction false} LeaveKeeps(s: State)
    requires Good(s)
    ensures Core(Leave(s)) && Leave(s).minV == s.minV
  {
    assert forall x :: x in s.queue ==> Leave(s).ent[x] == s.ent[x];
  }

  // ---------- whole runs ----------

  /** When a step can happen.  A task that stops running needs a successor. */
  ghost predicate Enabled(s: State, step: Step) {
    && Good(s)
    && match step
       case Tick(_) => true
       case Fork(id, nice, _) => id in s.ent && !s.ent[id].onRq && -20 <= nice < 20
       case Sleep => s.queue != []
       case Wake(id) => id in s.ent
       case Exit(parent, console) =>
         parent in s.ent && parent != s.current && (s.queue != [] || (console && !s.ent[parent].onRq))
  }

  ghost function Apply(s: State, step: Step): (s': State)
    requires Enabled(s, step)
    ensures s'.ent.Keys == s.ent.Keys
  {
    match step
    case Tick(slice) => DoTick(s, slice)
    case Fork(id, nice, vslice) => DoFork(s, id, nice, vslice)
    case Sleep => DoSleep(s)
    case Wake(id) => DoWake(s, id)
    case Exit(parent, console) => ExitQueue(s, parent, console); DoExit(s, parent, console)
  }

  lemma {:induction false} ExitCore(s: State, parent: Addr, console: bool)
    requires Good(s) && parent in s.ent && parent != s.current
    ensures Core(ExitReady(s, parent, console)) && ExitReady(s, parent, console).current == s.current
    ensures !ExitReady(s, parent, console).ent[s.current].onRq
  {
    LeaveKeeps(s);
    if console { WakeKeeps(Leave(s), parent); }
  }

  lemma {:induction false} ExitQueue(s: State, parent: Addr, console: bool)
    requires Good(s) && parent in s.ent && parent != s.current && (s.queue != [] || (console && !s.ent[parent].onRq))
    ensures ExitReady(s, parent, console).queue != [] && Core(ExitReady(s, parent, console))
    ensures ExitReady(s, parent, console).minV >= s.minV
    ensures ExitReady(s, parent, console).ent[s.current] == Leave(s).ent[s.current]
  {
    LeaveKeeps(s);
    if console {
      WakeKeeps(Leave(s), parent);
      if s.queue != [] { assert s.queue[0] in s.queue; }
    }
  }

  /** Every step keeps the invariant, and never lowers `min_vruntime`. */
  lemma {:induction false} StepKeeps(s: State, step: Step)
    requires Enabled(s, step)
    ensures Good(Apply(s, step)) && Apply(s, step).minV >= s.minV
  {
    match step
    case Tick(slice) => TickKeeps(s, slice);
    case Fork(id, nice, vslice) => ForkKeeps(s, id, LoadWeight(nice).0, LoadWeight(nice).1, vslice);
    case Sleep => LeaveKeeps(s); ScheduleKeeps(Leave(s));
    case Wake(id) => WakeKeeps(s, id);
    case Exit(parent, console) => ExitQueue(s, parent, console); ScheduleKeeps(ExitReady(s, parent, console));
  }

  ghost predicate Feasible(s: State, run: seq<Step>)
    decreases |run|
  {
    run != [] ==> Enabled(s, run[0]) && Feasible(Apply(s, run[0]), run[1..])
  }

  ghost function After(s: State, run: seq<Step>): (s': State)
    requires Feasible(s, run)
    ensures s'.ent.Keys == s.ent.Keys
    decreases |run|
  {
    if run == [] then s else After(Apply(s, run[0]), run[1..])
  }

  /** Over any run: the queue stays sorted and consistent, `min_vruntime` never
      decreases, and no queued or running task falls more than half the target
      latency behind it. */
  lemma {:induction false} RunKeeps(s: State, run: seq<Step>)
    requires Good(s) && Feasible(s, run)
    ensures Good(After(s, run)) && After(s, run).minV >= s.minV
    decreases |run|
  {
    if run != [] {
      StepKeeps(s, run[0]);
      RunKeeps(Apply(s, run[0]), run[1..]);
    }
  }
}
