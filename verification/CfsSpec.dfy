/** The scheduler of kernel/cfs.c as a state machine: a run queue kept as a
    sequence sorted by virtual runtime, the running task, the clock, and one step
    for each entry point.  `Cfs` shows that the tree-based code takes these steps. */
module CfsSpec {
  import opened RbShape
  import opened FixedPoint

  const TICKUNIT: nat := 1_000_000
  const TARGET_LATENCY: nat := 5_000_000
  const MIN_GRANULARITY: nat := 1_000_000
  /** What `place_entity` grants a task that wakes up. */
  const CREDIT: nat := TARGET_LATENCY / 2

  /** The scheduling fields of a task (`sched_t`). */
  datatype Entity = Entity(vruntime: nat, execStart: nat, sumExec: nat, prevSumExec: nat, onRq: bool,
                           weight: nat, inv: nat)

  type Entities = map<Addr, Entity>

  /** The run queue (`cfs_rq`).  `queue` lists the waiting tasks in tree order;
      `current` is the running task, NULL while one is being picked. */
  datatype State = State(ent: Entities, queue: seq<Addr>, current: Addr, clock: nat, minV: nat)

  ghost predicate Known(s: State) {
    && NULL !in s.ent
    && (forall id :: id in s.queue ==> id in s.ent)
    && (s.current != NULL ==> s.current in s.ent)
    && (forall id :: id in s.ent ==> Load(s.ent[id].weight, s.ent[id].inv))
  }

  function Max(a: int, b: int): int { if a < b then b else a }
  function Min(a: int, b: int): int { if b < a then b else a }

  /** The unsigned 64-bit difference. */
  function Minus64(a: nat, b: nat): int {
    if b <= a then a - b else a - b + U64
  }

  // ---------- the parts of a step ----------

  /** A running task charged up to the moment `now`. */
  function Billed(c: Entity, now: nat): Entity
    requires now > c.execStart
  {
    var delta := now - c.execStart;
    c.(sumExec := c.sumExec + delta, execStart := now, vruntime := c.vruntime + Charge(delta, c.inv))
  }

  /** `update_curr` with `update_min_vruntime`. */
  ghost function UpdateCurr(s: State): (s': State)
    requires Known(s)
    ensures Known(s') && s' == s.(ent := s'.ent, minV := s'.minV) && s'.ent.Keys == s.ent.Keys
  {
    if s.current == NULL || s.clock <= s.ent[s.current].execStart then s
    else
      var c' := Billed(s.ent[s.current], s.clock);
      var ent := s.ent[s.current := c'];
      var least := if s.queue == [] then c'.vruntime else Min(c'.vruntime, ent[s.queue[0]].vruntime);
      s.(ent := ent, minV := Max(s.minV, least))
  }

  /** `__enqueue_entity`'s place for `id`: after every task whose key is not larger. */
  ghost function Insert(ent: Entities, q: seq<Addr>, id: Addr): (q': seq<Addr>)
    requires id in ent && forall x :: x in q ==> x in ent
    ensures |q'| == |q| + 1 && forall x :: x in q' ==> x == id || x in q
  {
    if q == [] then [id]
    else if ent[id].vruntime < ent[q[0]].vruntime then [id] + q
    else [q[0]] + Insert(ent, q[1..], id)
  }

  /** `__enqueue_entity`. */
  ghost function Enqueue(s: State, id: Addr): (s': State)
    requires Known(s) && id in s.ent
    ensures Known(s') && s'.ent.Keys == s.ent.Keys
  {
    var ent := s.ent[id := s.ent[id].(onRq := true)];
    s.(ent := ent, queue := Insert(ent, s.queue, id))
  }

  /** `put_prev_task`. */
  ghost function PutPrev(s: State): (s': State)
    requires Known(s) && s.current != NULL
    ensures Known(s') && s'.current == NULL && s'.ent.Keys == s.ent.Keys
  {
    var s1 := if s.ent[s.current].onRq then Enqueue(UpdateCurr(s), s.current) else s;
    s1.(current := NULL)
  }

  /** `pick_next_task` after `put_prev_task`: the head of the queue starts to run. */
  ghost function Pick(s: State): (s': State)
    requires Known(s) && s.queue != []
    ensures Known(s') && s'.current == s.queue[0] && s'.ent.Keys == s.ent.Keys
  {
    var next := s.queue[0];
    var e := s.ent[next];
    s.(ent := s.ent[next := e.(execStart := s.clock, prevSumExec := e.sumExec)], queue := s.queue[1..], current := next)
  }

  /** `__schedule`. */
  ghost function Schedule(s: State): (s': State)
    requires Known(s) && s.current != NULL && PutPrev(s).queue != []
    ensures Known(s') && s'.current != NULL && s'.ent.Keys == s.ent.Keys
  {
    Pick(PutPrev(s))
  }

  /** `check_preempt_tick`, with its unsigned differences. */
  predicate CheckPreempt(c: Entity, minV: nat, ideal: nat)
  {
    var delta := Minus64(c.sumExec, c.prevSumExec);
    if delta > ideal then true
    else if delta < MIN_GRANULARITY then false
    else Minus64(c.vruntime, minV) > ideal
  }

  // ---------- the steps ----------

  /** What happens to the scheduler.  A timer tick and a fork carry the time slice
      the load computation produced; an exit says whether the parent's console is
      the current one. */
  datatype Step =
    | Tick(slice: nat)
    | Fork(id: Addr, nice: int, vslice: nat)
    | Sleep
    | Wake(id: Addr)
    | Exit(parent: Addr, console: bool)

  /** The clock moves on and the running task pays for it. */
  ghost function Charged(s: State): (s': State)
    requires Known(s)
    ensures Known(s') && s' == s.(ent := s'.ent, minV := s'.minV, clock := s.clock + TICKUNIT)
            && s'.ent.Keys == s.ent.Keys
  {
    UpdateCurr(s.(clock := s.clock + TICKUNIT))
  }

  /** `do_timer`. */
  ghost function DoTick(s: State, slice: nat): (s': State)
    requires Known(s) && s.current != NULL
    ensures Known(s') && s'.current != NULL && s'.ent.Keys == s.ent.Keys
  {
    var s1 := Charged(s);
    if s1.queue != [] && CheckPreempt(s1.ent[s1.current], s1.minV, slice) then
      assert PutPrev(s1).queue != [];
      Schedule(s1)
    else s1
  }

  /** Task `id`, not queued so far, is queued with the scheduling fields `e`. */
  ghost function Admit(s: State, id: Addr, e: Entity): (s': State)
    requires Known(s) && id in s.ent && Load(e.weight, e.inv)
    ensures Known(s') && s'.current == s.current && s'.ent.Keys == s.ent.Keys
  {
    Enqueue(s.(ent := s.ent[id := e]), id)
  }

  /** `sched_fork` and `activate_task`. */
  ghost function DoFork(s: State, id: Addr, nice: int, vslice: nat): (s': State)
    requires Known(s) && s.current != NULL && id in s.ent && id != s.current && -20 <= nice < 20
    ensures Known(s') && s'.current == s.current && s'.ent.Keys == s.ent.Keys
  {
    DoForkLoad(s, id, LoadWeight(nice).0, LoadWeight(nice).1, vslice)
  }

  ghost function DoForkLoad(s: State, id: Addr, weight: nat, inv: nat, vslice: nat): (s': State)
    requires Known(s) && s.current != NULL && id in s.ent && id != s.current && Load(weight, inv)
    ensures Known(s') && s'.current == s.current && s'.ent.Keys == s.ent.Keys
  {
    var s1 := UpdateCurr(s);
    var v := Max(s1.ent[s1.current].vruntime, s1.minV + vslice);
    Admit(s1, id, s1.ent[id].(weight := weight, inv := inv, vruntime := v))
  }

  /** `enqueue_task(task, 1)`: a sleeper is placed and queued, anybody else left alone. */
  ghost function DoWake(s: State, id: Addr): (s': State)
    requires Known(s) && s.current != NULL && id in s.ent && (id != s.current || s.ent[id].onRq)
    ensures Known(s') && s'.current == s.current && s'.ent.Keys == s.ent.Keys
  {
    if s.ent[id].onRq then s
    else
      var s1 := UpdateCurr(s);
      Admit(s1, id, Refreshed(s1, id))
  }

  /** A sleeper's fields as it wakes up. */
  ghost function Refreshed(s: State, id: Addr): Entity
    requires id in s.ent
  {
    s.ent[id].(vruntime := Max(s.ent[id].vruntime, s.minV - CREDIT))
  }

  /** The first half of `sched_sleep` and `sched_exit`. */
  ghost function Leave(s: State): (s': State)
    requires Known(s) && s.current != NULL
    ensures Known(s') && s'.current == s.current && s'.ent.Keys == s.ent.Keys && s'.queue == s.queue
  {
    s.(ent := s.ent[s.current := s.ent[s.current].(onRq := false)])
  }

  /** `sched_sleep`. */
  ghost function DoSleep(s: State): (s': State)
    requires Known(s) && s.current != NULL && s.queue != []
    ensures Known(s') && s'.current != NULL && s'.ent.Keys == s.ent.Keys
  {
    Schedule(Leave(s))
  }

  /** `sched_exit` with its `sched_wakeup`, up to the switch. */
  ghost function ExitReady(s: State, parent: Addr, console: bool): (s': State)
    requires Known(s) && s.current != NULL && parent in s.ent && parent != s.current
    ensures Known(s') && s'.current == s.current && s'.ent.Keys == s.ent.Keys
  {
    if console then DoWake(Leave(s), parent) else Leave(s)
  }

  ghost function DoExit(s: State, parent: Addr, console: bool): (s': State)
    requires Known(s) && s.current != NULL && parent in s.ent && parent != s.current
    requires ExitReady(s, parent, console).queue != []
    ensures Known(s') && s'.current != NULL && s'.ent.Keys == s.ent.Keys
  {
    var s1 := ExitReady(s, parent, console);
    assert !s1.ent[s1.current].onRq;
    Schedule(s1)
  }
}
