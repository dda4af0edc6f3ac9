/** What the scheduler promises over whole runs: time is conserved, accounts stay in
    range, and the least virtual runtime runs next. */
module CfsFairness {
  import Powers
  import opened RbShape
  import opened FixedPoint
  import opened CfsSpec
  import opened CfsInvariant

  // ---------- what one step does to the tasks ----------

  /** The tasks agree on everything but bookkeeping of the current dispatch. */
  ghost predicate SameWork(e: Entities, e': Entities) {
    && e'.Keys == e.Keys
    && forall id :: id in e ==>
         && e'[id].vruntime == e[id].vruntime && e'[id].sumExec == e[id].sumExec
         && e'[id].inv == e[id].inv && e'[id].onRq == e[id].onRq
  }

  /** The least virtual runtime among the tasks that want to run. */
  ghost predicate Least(ent: Entities, id: Addr) {
    id in ent && ent[id].onRq && forall u :: u in ent && ent[u].onRq ==> ent[id].vruntime <= ent[u].vruntime
  }

  /** A reschedule dispatches the least virtual runtime and changes no account. */
  lemma {:induction false} ScheduleEffect(s: State)
    requires Good(s)
    ensures PutPrev(s).queue != []
    ensures var s' := Schedule(s);
            && SameWork(s.ent, s'.ent) && s'.clock == s.clock && s'.minV == s.minV
            && Least(s'.ent, s'.current)
            && s'.ent[s'.current].prevSumExec == s'.ent[s'.current].sumExec
            && (forall id :: id in s.ent && id != s'.current ==> s'.ent[id] == s.ent[id])
  {
    PutPrevEffect(s);
    PickEffect(PutPrev(s));
  }

  lemma {:induction false} PutPrevEffect(s: State)
    requires Good(s)
    ensures var s' := PutPrev(s); Core(s') && s'.queue != [] && s' == s.(queue := s'.queue, current := NULL)
  {
    UpdateCurrIdle(s);
    assert s.ent[s.current := s.ent[s.current].(onRq := true)] == s.ent;
    PutPrevKeeps(s);
  }

  lemma {:induction false} PickEffect(s: State)
    requires Core(s) && s.current == NULL && s.queue != []
    ensures var s' := Pick(s);
            && SameWork(s.ent, s'.ent) && s'.clock == s.clock && s'.minV == s.minV
            && Least(s'.ent, s'.current)
            && s'.ent[s'.current].prevSumExec == s'.ent[s'.current].sumExec
            && (forall id :: id in s.ent && id != s'.current ==> s'.ent[id] == s.ent[id])
  {
    var n := s.queue[0];
    assert n in s.queue;
    forall u | u in s.ent && s.ent[u].onRq ensures s.ent[n].vruntime <= s.ent[u].vruntime {
      var i :| 0 <= i < |s.queue| && s.queue[i] == u;
    }
  }

  /** A tick charges the running task one tick, and then either lets it run on or
      dispatches the task with the least virtual runtime. */
  lemma {:induction false} ChargedEffect(s: State)
    requires Good(s)
    ensures var s', c := Charged(s), s.ent[s.current];
            && Good(s') && s'.current == s.current && s'.queue == s.queue && s'.clock == s.clock + TICKUNIT
            && s'.ent == s.ent[s.current := c.(sumExec := c.sumExec + TICKUNIT, execStart := s.clock + TICKUNIT,
                                               vruntime := c.vruntime + Charge(TICKUNIT, c.inv))]
  {
    ChargedKeeps(s);
    assert Charged(s).ent[s.current] == Billed(s.ent[s.current], s.clock + TICKUNIT);
  }

  lemma {:induction false} TickEffect(s: State, slice: nat)
    requires Good(s)
    ensures var s1, s' := Charged(s), DoTick(s, slice);
            && Good(s1) && Good(s') && SameWork(s1.ent, s'.ent) && s'.clock == s.clock + TICKUNIT
            && (if s.queue != [] && CheckPreempt(s1.ent[s.current], s1.minV, slice) then
                  && Least(s'.ent, s'.current)
                  && s'.ent[s'.current].prevSumExec == s'.ent[s'.current].sumExec
                else s' == s1)
  {
    ChargedEffect(s);
    TickKeeps(s, slice);
    ScheduleEffect(Charged(s));
  }

  // ---------- what becomes of `min_vruntime` and of each task ----------

  /** A tick takes `min_vruntime` up to the least virtual runtime among the tasks that
      want to run, waiting or running. */
  lemma {:induction false} MinVruntimeFollows(s: State, t: Addr)
    requires Good(s)
    requires var ent := Charged(s).ent;
             t in ent && ent[t].onRq && forall u :: u in ent && ent[u].onRq ==> ent[t].vruntime <= ent[u].vruntime
    ensures Charged(s).minV == Max(s.minV, Charged(s).ent[t].vruntime)
  {
    ChargedEffect(s);
    var s1 := Charged(s);
    if s.queue != [] {
      var h := s.queue[0];
      assert h in s.queue && s1.ent[h].onRq;
      if t != s.current {
        var i :| 0 <= i < |s.queue| && s.queue[i] == t;
        assert s1.ent[h].vruntime <= s1.ent[t].vruntime;
      }
    }
  }

  /** The same of the whole tick, and no other step touches `min_vruntime`. */
  lemma {:induction false} StepMinVruntime(s: State, step: Step, t: Addr)
    requires Enabled(s, step)
    ensures !step.Tick? ==> Apply(s, step).minV == s.minV
    ensures step.Tick? && Least(Apply(s, step).ent, t) ==>
              Apply(s, step).minV == Max(s.minV, Apply(s, step).ent[t].vruntime)
  {
    match step
    case Tick(slice) =>
      TickEffect(s, slice);
      ScheduleEffect(Charged(s));
      if Least(DoTick(s, slice).ent, t) { MinVruntimeFollows(s, t); }
    case Fork(id, nice, vslice) => ForkIs(s, id, LoadWeight(nice).0, LoadWeight(nice).1, vslice);
    case Sleep => StopEffect(s);
    case Wake(id) => UpdateCurrIdle(s);
    case Exit(parent, console) => ExitEffect(s, parent, console);
  }

  /** A new task starts neither before its parent nor before `min_vruntime` plus its
      slice, and no later than that asks for.  Nobody else notices. */
  lemma {:induction false} ForkEffect(s: State, id: Addr, nice: int, vslice: nat)
    requires Enabled(s, Fork(id, nice, vslice))
    ensures var s' := Apply(s, Fork(id, nice, vslice)); var e, parent := s'.ent[id], s.ent[s.current];
            && e.vruntime >= parent.vruntime && e.vruntime >= s.minV + vslice
            && (e.vruntime == parent.vruntime || e.vruntime == s.minV + vslice)
            && (e.weight, e.inv) == LoadWeight(nice) && e.onRq && e.sumExec == s.ent[id].sumExec
            && Queued(s, s', id)
  {
    var (weight, inv) := LoadWeight(nice);
    ForkIs(s, id, weight, inv, vslice);
    var v := Max(s.ent[s.current].vruntime, s.minV + vslice);
    AdmitKeeps(s, id, s.ent[id].(weight := weight, inv := inv, vruntime := v));
    AdmitEffect(s, id, s.ent[id].(weight := weight, inv := inv, vruntime := v));
  }

  /** `id` has joined the queue, and nothing else has changed. */
  ghost predicate Queued(s: State, s': State, id: Addr) {
    && s'.ent.Keys == s.ent.Keys && s'.current == s.current && s'.clock == s.clock
    && (forall x :: x in s.ent && x != id ==> s'.ent[x] == s.ent[x])
    && (forall x :: x in s'.queue <==> x == id || x in s.queue)
  }

  lemma {:induction false} AdmitEffect(s: State, id: Addr, e: Entity)
    requires Core(s) && id in s.ent && id !in s.queue && id != s.current && Load(e.weight, e.inv)
    requires e.vruntime + CREDIT >= s.minV
    ensures Queued(s, Admit(s, id, e), id) && Admit(s, id, e).ent[id] == e.(onRq := true)
  {
    var s1 := s.(ent := s.ent[id := e]);
    assert forall x :: x in s.queue ==> s1.ent[x] == s.ent[x];
    EnqueueKeeps(s1, id);
  }

  /** A sleeper that wakes up is never moved back, comes at most half the target latency
      behind `min_vruntime`, and is moved no further than that.  A task that is not asleep
      is left alone. */
  lemma {:induction false} WakeEffect(s: State, id: Addr)
    requires Enabled(s, Wake(id))
    ensures s.ent[id].onRq ==> Apply(s, Wake(id)) == s
    ensures !s.ent[id].onRq ==>
              var s' := Apply(s, Wake(id)); var e, was := s'.ent[id], s.ent[id];
              && e.vruntime >= was.vruntime && e.vruntime + TARGET_LATENCY / 2 >= s.minV
              && (e.vruntime == was.vruntime || e.vruntime + TARGET_LATENCY / 2 == s.minV)
              && e == was.(vruntime := e.vruntime, onRq := true) && Queued(s, s', id)
  {
    if !s.ent[id].onRq {
      WakeIs(s, id);
      AdmitEffect(s, id, Refreshed(s, id));
    }
  }

  /** A task that sleeps wants to run no longer, and the least of the others runs. */
  lemma {:induction false} StopEffect(s: State)
    requires Enabled(s, Sleep)
    ensures var s' := Apply(s, Sleep);
            && s'.clock == s.clock && s'.minV == s.minV && s'.ent.Keys == s.ent.Keys
            && s'.ent[s.current] == s.ent[s.current].(onRq := false)
            && s.queue != [] && s'.current in s.queue && Least(s'.ent, s'.current)
            && (forall id :: id in s.ent && id != s.current && id != s'.current ==> s'.ent[id] == s.ent[id])
            && SameWork(Leave(s).ent, s'.ent)
  {
    LeaveKeeps(s);
    var s1 := Leave(s);
    assert PutPrev(s1) == s1.(current := NULL);
    GoneCore(s1);
    PickEffect(PutPrev(s1));
    assert s.queue[0] in s.queue;
  }

  lemma {:induction false} GoneCore(s: State)
    requires Core(s) && s.current != NULL && !s.ent[s.current].onRq
    ensures Core(s.(current := NULL))
  {
  }

  /** A task that exits wants to run no longer; its parent does if the console is the
      current one, and no other task comes or goes.  The least of them runs. */
  lemma {:induction false} ExitEffect(s: State, parent: Addr, console: bool)
    requires Enabled(s, Exit(parent, console))
    ensures var s' := Apply(s, Exit(parent, console));
            && s'.clock == s.clock && s'.minV == s.minV && s'.ent.Keys == s.ent.Keys
            && !s'.ent[s.current].onRq && s'.ent[parent].onRq == (console || s.ent[parent].onRq)
            && (forall id :: id in s.ent && id != s.current && id != parent ==>
                  s'.ent[id].onRq == s.ent[id].onRq && s'.ent[id].vruntime == s.ent[id].vruntime)
            && Least(s'.ent, s'.current)
  {
    ExitQueue(s, parent, console);
    LeaveKeeps(s);
    if console { LeftWakes(s, parent); }
    var s1 := ExitReady(s, parent, console);
    GoneCore(s1);
    PickEffect(PutPrev(s1));
  }

  /** A wake-up while the running task is about to go. */
  lemma {:induction false} LeftWakes(s: State, id: Addr)
    requires Good(s) && id in s.ent && id != s.current && Core(Leave(s))
    ensures var s' := DoWake(Leave(s), id);
            && s'.minV == s.minV && s'.clock == s.clock && s'.ent[id].onRq
            && (forall x :: x in s.ent && x != id ==> s'.ent[x] == Leave(s).ent[x])
  {
    if !s.ent[id].onRq {
      WakeIs(Leave(s), id);
      AdmitEffect(Leave(s), id, Refreshed(Leave(s), id));
    }
  }

  // ---------- CPU time is conserved ----------

  /** Execution time of the tasks `ids`, added up. */
  ghost function Total(ids: seq<Addr>, ent: Entities): nat
    requires forall id :: id in ids ==> id in ent
  {
    if ids == [] then 0 else ent[ids[0]].sumExec + Total(ids[1..], ent)
  }

  lemma {:induction false} TotalGrows(ids: seq<Addr>, ent: Entities, ent': Entities, c: Addr, d: nat)
    requires NoRepeats(ids) && forall id :: id in ids ==> id in ent && id in ent'
    requires forall id :: id in ids ==> ent'[id].sumExec == ent[id].sumExec + if id == c then d else 0
    ensures Total(ids, ent') == Total(ids, ent) + if c in ids then d else 0
  {
    if ids != [] {
      assert NoRepeats(ids[1..]);
      TotalGrows(ids[1..], ent, ent', c, d);
      assert ids == [ids[0]] + ids[1..];
      assert c in ids <==> c == ids[0] || c in ids[1..];
      if c in ids[1..] {
        var i :| 0 <= i < |ids[1..]| && ids[1..][i] == c;
        assert ids[i + 1] == c;
      }
    }
  }

  /** Every account grew by what `c` ran, and so did the clock. */
  ghost predicate Accounts(s: State, s': State, c: Addr, d: nat) {
    && s'.ent.Keys == s.ent.Keys && s'.clock == s.clock + d
    && forall id :: id in s.ent ==> s'.ent[id].sumExec == s.ent[id].sumExec + if id == c then d else 0
  }

  lemma {:induction false} StopAccounts(s: State)
    requires Core(s) && s.current != NULL && !s.ent[s.current].onRq && s.queue != []
    ensures PutPrev(s).queue != [] && Accounts(s, Schedule(s), NULL, 0)
  {
  }

  lemma {:induction false} WakeAccounts(s: State, id: Addr)
    requires Core(s) && s.current != NULL && id in s.ent && s.ent[s.current].execStart == s.clock
    requires id != s.current || s.ent[id].onRq
    ensures Accounts(s, DoWake(s, id), NULL, 0)
  {
    UpdateCurrIdle(s);
  }

  lemma {:induction false} StepAccounts(s: State, step: Step)
    requires Enabled(s, step)
    ensures Accounts(s, Apply(s, step), s.current, if step.Tick? then TICKUNIT else 0)
  {
    match step
    case Tick(slice) => ChargedEffect(s); TickEffect(s, slice);
    case Fork(id, nice, vslice) => UpdateCurrIdle(s);
    case Sleep => LeaveKeeps(s); StopAccounts(Leave(s));
    case Wake(id) => WakeAccounts(s, id);
    case Exit(parent, console) =>
      LeaveKeeps(s);
      ExitQueue(s, parent, console);
      if console { WakeAccounts(Leave(s), parent); }
      StopAccounts(ExitReady(s, parent, console));
  }

  /** Over any run the tasks' execution times together grow by exactly what the
      clock advances, and the running task is always charged up to date. */
  lemma {:induction false} TimeConserved(s: State, run: seq<Step>, ids: seq<Addr>)
    requires Good(s) && Feasible(s, run)
    requires NoRepeats(ids) && forall id :: id in ids <==> id in s.ent
    ensures var s' := CfsInvariant.After(s, run);
            && Total(ids, s'.ent) - Total(ids, s.ent) == s'.clock - s.clock
            && Good(s') && s'.ent[s'.current].execStart == s'.clock
    decreases |run|
  {
    RunKeeps(s, run);
    if run == [] {
    } else {
      var s1 := Apply(s, run[0]);
      StepKeeps(s, run[0]);
      StepAccounts(s, run[0]);
      TotalGrows(ids, s.ent, s1.ent, s.current, if run[0].Tick? then TICKUNIT else 0);
      TimeConserved(s1, run[1..], ids);
    }
  }

  // ---------- virtual runtimes stay in range ----------

  /** No account is above `top`. */
  ghost predicate Below(s: State, top: nat) {
    && s.minV <= top && s.clock <= top
    && forall id :: id in s.ent ==>
         s.ent[id].vruntime <= top && s.ent[id].execStart <= top && s.ent[id].sumExec <= top
  }

  /** What a step can add to the largest account. */
  function Rise(step: Step): nat {
    match step
    case Tick(_) => 69 * TICKUNIT
    case Fork(_, _, vslice) => vslice
    case _ => 0
  }

  function Rises(run: seq<Step>): nat {
    if run == [] then 0 else Rise(run[0]) + Rises(run[1..])
  }

  lemma {:induction false} StopBelow(s: State, top: nat)
    requires Core(s) && s.current != NULL && !s.ent[s.current].onRq && s.queue != [] && Below(s, top)
    ensures PutPrev(s).queue != [] && Below(Schedule(s), top)
  {
  }

  lemma {:induction false} WakeBelow(s: State, id: Addr, top: nat)
    requires Core(s) && s.current != NULL && id in s.ent && s.ent[s.current].execStart == s.clock
    requires (id != s.current || s.ent[id].onRq) && Below(s, top)
    ensures Below(DoWake(s, id), top)
  {
    UpdateCurrIdle(s);
  }

  lemma {:induction false} ForkBelow(s: State, id: Addr, weight: nat, inv: nat, vslice: nat, top: nat)
    requires Good(s) && id in s.ent && id != s.current && Load(weight, inv) && Below(s, top)
    ensures Below(DoForkLoad(s, id, weight, inv, vslice), top + vslice)
  {
    UpdateCurrIdle(s);
  }

  lemma {:induction false} ChargedBelow(s: State, top: nat)
    requires Good(s) && Below(s, top)
    ensures Below(Charged(s), top + 69 * TICKUNIT)
  {
    ChargedEffect(s);
    ChargeBound(TICKUNIT, s.ent[s.current].inv);
  }

  lemma {:induction false} TickBelow(s: State, slice: nat, top: nat)
    requires Good(s) && Below(s, top)
    ensures Below(DoTick(s, slice), top + 69 * TICKUNIT)
  {
    ChargedBelow(s, top);
    ChargedKeeps(s);
    ScheduleEffect(Charged(s));
  }

  lemma {:induction false} StepBelow(s: State, step: Step, top: nat)
    requires Enabled(s, step) && Below(s, top)
    ensures Below(Apply(s, step), top + Rise(step))
  {
    match step
    case Tick(slice) => TickBelow(s, slice, top);
    case Fork(id, nice, vslice) => ForkBelow(s, id, LoadWeight(nice).0, LoadWeight(nice).1, vslice, top);
    case Sleep => LeaveKeeps(s); StopBelow(Leave(s), top);
    case Wake(id) => WakeBelow(s, id, top);
    case Exit(parent, console) =>
      LeaveKeeps(s);
      ExitQueue(s, parent, console);
      if console { WakeBelow(Leave(s), parent, top); }
      StopBelow(ExitReady(s, parent, console), top);
  }

  /** After any run no account exceeds where the largest one started by more than 69
      per unit of clock time plus the slices of the forked tasks. */
  lemma {:induction false} RunBelow(s: State, run: seq<Step>, top: nat)
    requires Good(s) && Feasible(s, run) && Below(s, top)
    ensures Below(CfsInvariant.After(s, run), top + Rises(run))
    decreases |run|
  {
    if run != [] {
      StepKeeps(s, run[0]);
      StepBelow(s, run[0], top);
      RunBelow(Apply(s, run[0]), run[1..], top + Rise(run[0]));
    }
  }

  // ---------- preemption ----------

  /** Once a task has run for the minimum granularity, being behind `min_vruntime`
      makes `check_preempt_tick` ask for a reschedule, although its own comment
      says such a task should run on: the difference is unsigned, so its test for
      a negative value never holds.  In range, the function asks for one exactly
      in these three cases. */
  lemma {:induction false} PreemptExactly(c: Entity, minV: nat, ideal: nat)
    requires c.vruntime < U64 / 2 && minV < U64 / 2 && ideal < U64 / 2 && c.prevSumExec <= c.sumExec
    ensures CheckPreempt(c, minV, ideal) <==>
            var ran := c.sumExec - c.prevSumExec;
            ran > ideal || (ran >= MIN_GRANULARITY && (c.vruntime < minV || c.vruntime - minV > ideal))
  {
  }

  /** Being asked to reschedule is not being preempted: the running task is queued
      first, and picked again if the head of the queue is larger.  A tick takes the
      processor away exactly when it asks and the head is not larger. */
  lemma {:induction false} TickSwitches(s: State, slice: nat)
    requires Good(s)
    ensures var s1 := Charged(s);
            && Good(s1) && s1.queue == s.queue
            && (DoTick(s, slice).current != s.current <==>
                  && s.queue != [] && CheckPreempt(s1.ent[s.current], s1.minV, slice)
                  && s.queue[0] in s1.ent && s1.ent[s.queue[0]].vruntime <= s1.ent[s.current].vruntime)
  {
    ChargedEffect(s);
    var s1 := Charged(s);
    if s.queue != [] {
      assert s.queue[0] in s.queue;
      PutPrevEffect(s1);
      UpdateCurrIdle(s1);
      var e := s1.ent[s.current := s1.ent[s.current].(onRq := true)];
      assert e == s1.ent;
      var k := InsertPlace(s1.ent, s1.queue, s.current);
      assert PutPrev(s1).queue == s.queue[..k] + [s.current] + s.queue[k..];
    }
  }

  /** A task behind `min_vruntime` and behind everybody in the queue, as in the
      comment of `check_preempt_tick`: it is asked to reschedule, runs on all the
      same, and has its time slice start anew. */
  lemma {:induction false} BehindRunsOn(s: State, slice: nat)
    requires Good(s) && s.queue != [] && s.queue[0] in s.ent && slice < U64 / 2
    requires var c := Charged(s).ent[s.current];
             && c.sumExec - c.prevSumExec >= MIN_GRANULARITY
             && c.vruntime < Charged(s).minV < U64 / 2 && c.vruntime < s.ent[s.queue[0]].vruntime
    ensures CheckPreempt(Charged(s).ent[s.current], Charged(s).minV, slice)
    ensures var s' := DoTick(s, slice);
            s'.current == s.current && s'.ent[s.current].prevSumExec == s'.ent[s.current].sumExec
  {
    ChargedEffect(s);
    assert s.queue[0] in s.queue;
    PreemptExactly(Charged(s).ent[s.current], Charged(s).minV, slice);
    TickSwitches(s, slice);
    TickEffect(s, slice);
  }

  // ---------- such a state is reached ----------

  function NiceZero(vruntime: nat, execStart: nat, sumExec: nat, prevSumExec: nat, onRq: bool): Entity {
    Entity(vruntime, execStart, sumExec, prevSumExec, onRq, NICE_0_LOAD, 0x40_0000)
  }

  /** As boot leaves it: task 4 runs, task 8 has not been scheduled yet. */
  function Booted(): State {
    State(map[4 := NiceZero(0, 0, 0, 0, true), 8 := NiceZero(0, 0, 0, 0, false)], [], 4, 0, 0)
  }

  /** Task 8 is forked, task 4 sleeps for a tick, wakes up behind and gets the processor. */
  function Nap(): seq<Step> {
    [Fork(8, 0, 5_000_000)] + Doze()
  }

  function Doze(): seq<Step> {
    [Sleep] + ([Tick(5_000_000)] + ([Wake(4)] + [Tick(1_000_000)]))
  }

  function Woken(): State {
    State(map[4 := NiceZero(3_500_000, 2_000_000, 0, 0, true), 8 := NiceZero(7_000_000, 2_000_000, 2_000_000, 0, true)],
          [8], 4, 2_000_000, 6_000_000)
  }

  lemma {:induction false} NiceZeroTick()
    ensures Charge(TICKUNIT, 0x40_0000) == 1_000_000
  {
    assert Powers.Pow2(22) == 0x40_0000 by { Powers.Pow2Values(); }
    Powers.ShrExact(1_000_000, 22);
  }

  /** The states between. */
  function Forked(): State {
    State(map[4 := NiceZero(0, 0, 0, 0, true), 8 := NiceZero(5_000_000, 0, 0, 0, true)], [8], 4, 0, 0)
  }

  function Slept(): State {
    State(map[4 := NiceZero(0, 0, 0, 0, false), 8 := NiceZero(5_000_000, 0, 0, 0, true)], [], 8, 0, 0)
  }

  function Passed(): State {
    State(map[4 := NiceZero(0, 0, 0, 0, false), 8 := NiceZero(6_000_000, 1_000_000, 1_000_000, 0, true)],
          [], 8, 1_000_000, 6_000_000)
  }

  function Called(): State {
    State(map[4 := NiceZero(3_500_000, 0, 0, 0, true), 8 := NiceZero(6_000_000, 1_000_000, 1_000_000, 0, true)],
          [4], 8, 1_000_000, 6_000_000)
  }

  /** The run is possible from `s`, and ends in `end`. */
  ghost predicate Leads(s: State, run: seq<Step>, end: State) {
    Good(s) && Good(end) && Feasible(s, run) && CfsInvariant.After(s, run) == end
  }

  lemma {:induction false} LeadsFirst(s: State, step: Step, s': State, rest: seq<Step>, end: State)
    requires Enabled(s, step) && Apply(s, step) == s' && Leads(s', rest, end)
    ensures Leads(s, [step] + rest, end)
  {
    assert ([step] + rest)[1..] == rest;
  }

  /** A task that is alone just pays, and takes `min_vruntime` along. */
  lemma {:induction false} TickAlone(s: State, slice: nat)
    requires Good(s) && s.queue == []
    ensures var c := Billed(s.ent[s.current], s.clock + TICKUNIT);
            DoTick(s, slice) == State(s.ent[s.current := c], [], s.current, s.clock + TICKUNIT, Max(s.minV, c.vruntime))
  {
  }

  /** Task `t` runs instead of the running task, which has become `c`. */
  function Over(s: State, t: Addr, c: Entity): State
    requires t in s.ent
  {
    var now := s.clock + TICKUNIT;
    var e := s.ent[t].(execStart := now, prevSumExec := s.ent[t].sumExec);
    State(s.ent[s.current := c][t := e], [s.current], t, now, s.minV)
  }

  /** A task that has used up its slice makes way for the only other one, if that is
      behind. */
  lemma {:induction false} TickOver(s: State, t: Addr, c: Entity, slice: nat)
    requires Good(s) && s.queue == [t] && t in s.ent && c == Billed(s.ent[s.current], s.clock + TICKUNIT)
    requires c.sumExec - c.prevSumExec > slice && s.ent[t].vruntime <= s.minV <= c.vruntime
    ensures DoTick(s, slice) == Over(s, t, c)
  {
    ChargedEffect(s);
    var s1 := Charged(s);
    assert t in s.queue;
    assert s1.minV == s.minV;
    assert CheckPreempt(s1.ent[s.current], s1.minV, slice);
    PutPrevEffect(s1);
    UpdateCurrIdle(s1);
    assert s1.ent[s.current := s1.ent[s.current].(onRq := true)] == s1.ent;
    assert Insert(s1.ent, [t], s.current) == [t, s.current];
  }

  lemma {:induction false} NapForks()
    ensures Enabled(Booted(), Fork(8, 0, 5_000_000)) && Apply(Booted(), Fork(8, 0, 5_000_000)) == Forked()
  {
    assert LoadWeight(0) == (NICE_0_LOAD, 0x40_0000);
    ForkIs(Booted(), 8, NICE_0_LOAD, 0x40_0000, 5_000_000);
  }

  lemma {:induction false} NapSleeps()
    ensures Enabled(Forked(), Sleep) && Apply(Forked(), Sleep) == Slept()
  {
  }

  lemma {:induction false} NapPasses()
    ensures Enabled(Slept(), Tick(5_000_000)) && Apply(Slept(), Tick(5_000_000)) == Passed()
  {
    NiceZeroTick();
    TickAlone(Slept(), 5_000_000);
  }

  lemma {:induction false} NapCalls()
    ensures Enabled(Passed(), Wake(4)) && Apply(Passed(), Wake(4)) == Called()
  {
    WakeIs(Passed(), 4);
  }

  lemma {:induction false} NapWakes()
    ensures Enabled(Called(), Tick(1_000_000)) && Apply(Called(), Tick(1_000_000)) == Woken()
  {
    NapCalls();
    StepKeeps(Passed(), Wake(4));
    TickToWoken();
  }

  lemma {:induction false} TickToWoken()
    requires Good(Called())
    ensures DoTick(Called(), 1_000_000) == Woken()
  {
    NiceZeroTick();
    var c := NiceZero(7_000_000, 2_000_000, 2_000_000, 0, true);
    assert c == Billed(Called().ent[8], 2_000_000);
    assert Over(Called(), 4, c) == Woken();
    TickOver(Called(), 4, c, 1_000_000);
  }

  lemma {:induction false} FromCalled()
    ensures Leads(Called(), [Tick(1_000_000)], Woken())
  {
    NapWakes();
    StepKeeps(Called(), Tick(1_000_000));
    LeadsFirst(Called(), Tick(1_000_000), Woken(), [], Woken());
    assert [Tick(1_000_000)] + [] == [Tick(1_000_000)];
  }

  lemma {:induction false} FromPassed()
    ensures Leads(Passed(), [Wake(4)] + [Tick(1_000_000)], Woken())
  {
    NapCalls();
    FromCalled();
    LeadsFirst(Passed(), Wake(4), Called(), [Tick(1_000_000)], Woken());
  }

  lemma {:induction false} FromSlept()
    ensures Leads(Slept(), [Tick(5_000_000)] + ([Wake(4)] + [Tick(1_000_000)]), Woken())
  {
    NapPasses();
    FromPassed();
    LeadsFirst(Slept(), Tick(5_000_000), Passed(), [Wake(4)] + [Tick(1_000_000)], Woken());
  }

  lemma {:induction false} FromForked()
    ensures Leads(Forked(), Doze(), Woken())
  {
    NapSleeps();
    FromSlept();
    LeadsFirst(Forked(), Sleep, Slept(), [Tick(5_000_000)] + ([Wake(4)] + [Tick(1_000_000)]), Woken());
  }

  lemma {:induction false} FromBooted()
    ensures Leads(Booted(), Nap(), Woken())
  {
    NapForks();
    FromForked();
    LeadsFirst(Booted(), Fork(8, 0, 5_000_000), Forked(), Doze(), Woken());
  }

  lemma {:induction false} WokenTick()
    requires Good(Woken())
    ensures Charged(Woken()).ent[4].vruntime < Charged(Woken()).minV
    ensures CheckPreempt(Charged(Woken()).ent[4], Charged(Woken()).minV, 5_000_000)
    ensures DoTick(Woken(), 5_000_000).current == 4
  {
    NiceZeroTick();
    ChargedEffect(Woken());
    assert Charged(Woken()).minV == 6_000_000;
    BehindRunsOn(Woken(), 5_000_000);
  }

  /** From boot the kernel gets there: a task behind `min_vruntime` is asked to
      reschedule, and runs on. */
  lemma {:induction false} WokenRunsOn()
    ensures Leads(Booted(), Nap(), Woken())
    ensures Charged(Woken()).ent[4].vruntime < Charged(Woken()).minV
    ensures CheckPreempt(Charged(Woken()).ent[4], Charged(Woken()).minV, 5_000_000)
    ensures DoTick(Woken(), 5_000_000).current == 4
  {
    FromBooted();
    WokenTick();
  }
}
