/** Fairness of tick-driven scheduling: nobody starves, and the virtual runtimes of
    the tasks that want to run stay close together. */
module CfsLiveness {
  import Powers
  import opened RbShape
  import opened FixedPoint
  import opened CfsSpec
  import opened CfsInvariant
  import opened CfsFairness

  /** What a tick does, as far as fairness is concerned: the running task is
      charged, and then runs on within its slice or makes way for the least. */
  ghost predicate Ticked(s: State, slice: nat, s': State) {
    && Good(s) && Good(s') && s'.ent.Keys == s.ent.Keys
    && (forall id :: id in s.ent ==> s'.ent[id].onRq == s.ent[id].onRq && s'.ent[id].inv == s.ent[id].inv)
    && (forall id :: id in s.ent && id != s.current ==> s'.ent[id].vruntime == s.ent[id].vruntime)
    && s.ent[s.current].vruntime < s'.ent[s.current].vruntime
    && s'.ent[s.current].vruntime == s.ent[s.current].vruntime + Charge(TICKUNIT, s.ent[s.current].inv)
    && (RunsOn(s, slice, s') || (Least(s'.ent, s'.current) && Ran(s'.ent[s'.current]) == 0))
  }

  ghost predicate RunsOn(s: State, slice: nat, s': State)
    requires Good(s) && s'.ent.Keys == s.ent.Keys
  {
    var c, c' := s.ent[s.current], s'.ent[s.current];
    && s'.current == s.current && s'.queue == s.queue && Ran(c') == Ran(c) + TICKUNIT
    && (s.queue != [] ==> Ran(c') <= slice)
  }

  /** How long the task has run since it was dispatched. */
  function Ran(c: Entity): int {
    c.sumExec - c.prevSumExec
  }

  lemma {:induction false} TickIsTicked(s: State, slice: nat)
    requires Good(s)
    ensures Ticked(s, slice, DoTick(s, slice))
  {
    var c := s.ent[s.current];
    ChargedEffect(s);
    TickEffect(s, slice);
    TickCharge(c.inv);
    TickedBy(s, Charge(TICKUNIT, c.inv), Charged(s), slice, DoTick(s, slice));
  }

  lemma {:induction false} TickedBy(s: State, d: nat, s1: State, slice: nat, s': State)
    requires Good(s) && Good(s') && 0 < d && SameWork(s1.ent, s'.ent)
    requires d == Charge(TICKUNIT, s.ent[s.current].inv)
    requires s1.current == s.current && s1.queue == s.queue
    requires var c := s.ent[s.current];
             s1.ent == s.ent[s.current := c.(sumExec := c.sumExec + TICKUNIT, execStart := s.clock + TICKUNIT,
                                             vruntime := c.vruntime + d)]
    requires || (s' == s1 && (s.queue != [] ==> !CheckPreempt(s1.ent[s.current], s1.minV, slice)))
             || (Least(s'.ent, s'.current) && Ran(s'.ent[s'.current]) == 0)
    ensures Ticked(s, slice, s')
  {
  }

  // ---------- no starvation ----------

  /** How far a task is from having more virtual runtime than `v`. */
  function Behind(e: Entity, v: nat): nat {
    if e.onRq && e.vruntime <= v then v + 1 - e.vruntime else 0
  }

  /** What the competitors of `t` can still be charged before `t` is the least. */
  ghost function Backlog(ids: seq<Addr>, ent: Entities, t: Addr, v: nat): nat
    requires forall id :: id in ids ==> id in ent
  {
    if ids == [] then 0 else (if ids[0] == t then 0 else Behind(ent[ids[0]], v)) + Backlog(ids[1..], ent, t, v)
  }

  lemma {:induction false} BacklogFalls(ids: seq<Addr>, ent: Entities, ent': Entities, t: Addr, v: nat, c: Addr)
    requires forall id :: id in ids ==> id in ent && id in ent'
    requires forall id :: id in ids && id != t ==> Behind(ent'[id], v) <= Behind(ent[id], v)
    ensures Backlog(ids, ent', t, v) <= Backlog(ids, ent, t, v)
    ensures c in ids && c != t && Behind(ent'[c], v) < Behind(ent[c], v) ==>
            Backlog(ids, ent', t, v) < Backlog(ids, ent, t, v)
  {
    if ids != [] {
      assert ids == [ids[0]] + ids[1..];
      BacklogFalls(ids[1..], ent, ent', t, v, c);
    }
  }

  /** Ticks the running task may still get when slices are at most `most`. */
  function Leeway(c: Entity, most: nat): nat {
    if 0 <= Ran(c) <= most then (most - Ran(c)) / TICKUNIT + 1 else 1
  }

  /** b*m + l, by repeated addition. */
  function Rounds(b: nat, m: nat, l: nat): nat {
    if b == 0 then l else m + Rounds(b - 1, m, l)
  }

  lemma {:induction false} RoundsFall(b: nat, b': nat, m: nat, l: nat, l': nat)
    requires l' < m && (b' < b || (b' == b && l' < l))
    ensures Rounds(b', m, l') < Rounds(b, m, l)
  {
    if b' > 0 { RoundsFall(b - 1, b' - 1, m, l, l'); }
  }

  /** Slack of the running task, which counts only once it is ahead of `t`. */
  ghost function Slack(s: State, v: nat, most: nat): nat
    requires s.current in s.ent
  {
    if s.ent[s.current].vruntime > v then Leeway(s.ent[s.current], most) else 0
  }

  /** An upper bound on the ticks until `t` runs: it falls with every tick. */
  ghost function Wait(ids: seq<Addr>, s: State, t: Addr, most: nat): nat
    requires s.current in s.ent && t in s.ent && forall id :: id in ids ==> id in s.ent
  {
    var v := s.ent[t].vruntime;
    Rounds(Backlog(ids, s.ent, t, v), most / TICKUNIT + 2, Slack(s, v, most))
  }

  /** `t` still waits, with its virtual runtime unchanged, unless it runs. */
  lemma {:induction false} StillWaiting(s: State, t: Addr, slice: nat, s': State)
    requires Ticked(s, slice, s') && t in s.queue
    ensures t in s'.ent && s'.ent[t].vruntime == s.ent[t].vruntime && (s'.current == t || t in s'.queue)
  {
  }

  /** The backlog never grows, and shrinks while the running task is not ahead. */
  lemma {:induction false} TickBacklog(ids: seq<Addr>, s: State, t: Addr, slice: nat, s': State)
    requires Ticked(s, slice, s') && t in s.queue && forall id :: id in ids <==> id in s.ent
    ensures var v := s.ent[t].vruntime;
            && Backlog(ids, s'.ent, t, v) <= Backlog(ids, s.ent, t, v)
            && (s.ent[s.current].vruntime <= v ==> Backlog(ids, s'.ent, t, v) < Backlog(ids, s.ent, t, v))
  {
    BacklogFalls(ids, s.ent, s'.ent, t, s.ent[t].vruntime, s.current);
  }

  /** Once the running task is ahead of `t` it runs on for less long, or somebody
      who is not ahead takes over. */
  lemma {:induction false} TickSlack(s: State, t: Addr, slice: nat, most: nat, s': State)
    requires Ticked(s, slice, s') && t in s.queue && slice <= most && Ran(s.ent[s.current]) >= 0
    ensures s'.current in s'.ent && Slack(s', s.ent[t].vruntime, most) <= most / TICKUNIT + 1
    ensures s.ent[s.current].vruntime > s.ent[t].vruntime ==>
              Slack(s', s.ent[t].vruntime, most) < Slack(s, s.ent[t].vruntime, most)
  {
    assert t in s.ent && s.ent[t].onRq;
  }

  /** One tick: `t` runs, or its wait got shorter. */
  lemma {:induction false} TickShortensWait(ids: seq<Addr>, s: State, t: Addr, slice: nat, most: nat, s': State)
    requires Ticked(s, slice, s') && t in s.queue && slice <= most && Ran(s.ent[s.current]) >= 0
    requires forall id :: id in ids <==> id in s.ent
    ensures s'.current == t || (t in s'.queue && t in s'.ent && Wait(ids, s', t, most) < Wait(ids, s, t, most))
    ensures Ran(s'.ent[s'.current]) >= 0
  {
    StillWaiting(s, t, slice, s');
    TickBacklog(ids, s, t, slice, s');
    TickSlack(s, t, slice, most, s');
    var v := s.ent[t].vruntime;
    RoundsFall(Backlog(ids, s.ent, t, v), Backlog(ids, s'.ent, t, v), most / TICKUNIT + 2, Slack(s, v, most),
               Slack(s', v, most));
  }

  /** A history of ticks: `h[i + 1]` is what the tick with slice `slices[i]` makes of `h[i]`. */
  ghost predicate History(h: seq<State>, slices: seq<nat>) {
    && |h| == |slices| + 1 && Good(h[0])
    && forall i :: 0 <= i < |slices| ==> Good(h[i]) && h[i + 1] == DoTick(h[i], slices[i])
  }

  ghost predicate TickedFrom(h: seq<State>, slices: seq<nat>, n: nat) {
    |h| == |slices| + 1 && forall i :: n <= i < |slices| ==> Ticked(h[i], slices[i], h[i + 1])
  }

  lemma {:induction false} HistoryTicked(h: seq<State>, slices: seq<nat>, n: nat)
    requires History(h, slices) && n <= |slices|
    ensures forall i :: 0 <= i < n ==> Ticked(h[i], slices[i], h[i + 1])
    ensures Good(h[n]) && Ran(h[n].ent[h[n].current]) >= 0
  {
    if n > 0 {
      HistoryTicked(h, slices, n - 1);
      TickIsTicked(h[n - 1], slices[n - 1]);
      assert Ticked(h[n - 1], slices[n - 1], h[n]);
    }
  }

  /** No starvation: however the time slices come out, as long as none exceeds
      `most`, a queued task runs within `Wait` ticks. */
  lemma {:induction false} NoStarvation(ids: seq<Addr>, t: Addr, h: seq<State>, slices: seq<nat>, most: nat)
    returns (k: nat)
    requires History(h, slices) && t in h[0].queue
    requires forall id :: id in ids <==> id in h[0].ent
    requires forall i :: 0 <= i < |slices| ==> slices[i] <= most
    requires t in h[0].ent && h[0].current in h[0].ent && |slices| > Wait(ids, h[0], t, most)
    ensures 0 < k <= Wait(ids, h[0], t, most) + 1 && k < |h| && h[k].current == t
  {
    HistoryTicked(h, slices, |slices|);
    k := RunsBy(ids, t, h, slices, most, 0);
  }

  lemma {:induction false} RunsBy(ids: seq<Addr>, t: Addr, h: seq<State>, slices: seq<nat>, most: nat, n: nat)
    returns (k: nat)
    requires TickedFrom(h, slices, n) && n < |slices| && Good(h[n]) && t in h[n].queue
             && Ran(h[n].ent[h[n].current]) >= 0
    requires forall id :: id in ids <==> id in h[n].ent
    requires forall i :: 0 <= i < |slices| ==> slices[i] <= most
    requires |slices| - n > Wait(ids, h[n], t, most)
    ensures n < k <= n + Wait(ids, h[n], t, most) + 1 && k < |h| && h[k].current == t
    decreases |slices| - n
  {
    assert Ticked(h[n], slices[n], h[n + 1]);
    TickShortensWait(ids, h[n], t, slices[n], most, h[n + 1]);
    if h[n + 1].current == t {
      k := n + 1;
    } else {
      k := RunsBy(ids, t, h, slices, most, n + 1);
    }
  }

  // ---------- queued tasks stay close ----------

  /** Every task that wants to run is between `low` and `low + b`. */
  ghost predicate Within(s: State, low: nat, b: nat) {
    forall u :: u in s.ent && s.ent[u].onRq ==> low <= s.ent[u].vruntime <= low + b
  }

  /** A task's virtual runtime. */
  ghost function Vruntime(s: State, id: Addr): nat {
    if id in s.ent then s.ent[id].vruntime else 0
  }

  /** The running task has just been dispatched. */
  ghost predicate Dispatched(s: State) {
    s.current in s.ent && Ran(s.ent[s.current]) == 0
  }

  /** The virtual runtime with which the running task of `h[i]` was dispatched; `v` is
      that of the first one. */
  ghost function Start(h: seq<State>, i: nat, v: nat): nat
    requires i < |h|
  {
    if i == 0 then v else if Dispatched(h[i]) then Vruntime(h[i], h[i].current) else Start(h, i - 1, v)
  }

  /** Up to tick `i` the task it is charged to gets past its dispatch by `b` at most. */
  ghost predicate Paid(h: seq<State>, i: nat, v: nat, b: nat)
    requires i + 1 < |h|
  {
    Vruntime(h[i + 1], h[i].current) <= Start(h, i, v) + b
  }

  /** No dispatch charges more than `b`. */
  ghost predicate Charges(h: seq<State>, v: nat, b: nat) {
    forall i :: 0 <= i < |h| - 1 ==> Paid(h, i, v, b)
  }

  /** One tick of a dispatch that started no higher than `low`. */
  lemma {:induction false} TickKeepsWithin(s: State, slice: nat, s': State, start: nat, low: nat, b: nat)
    returns (start': nat, low': nat)
    requires Ticked(s, slice, s') && Within(s, low, b) && start <= low && Vruntime(s', s.current) <= start + b
    ensures low <= low' && Within(s', low', b) && start' <= low'
    ensures start' == if Dispatched(s') then Vruntime(s', s'.current) else start
  {
    assert forall u :: u in s.ent && s'.ent[u].onRq ==> low <= s'.ent[u].vruntime <= low + b;
    if RunsOn(s, slice, s') {
      start', low' := start, low;
    } else {
      start', low' := s'.ent[s'.current].vruntime, s'.ent[s'.current].vruntime;
    }
  }

  /** If no dispatch charges more than `b`, the spread of virtual runtimes, once within
      `b`, stays within `b` through any number of ticks, and its lower end only rises.
      The first dispatch started, as every later one does, at the lower end. */
  lemma {:induction false} StaysClose(low: nat, v: nat, h: seq<State>, slices: seq<nat>, b: nat, n: nat)
    returns (low': nat)
    requires History(h, slices) && Charges(h, v, b) && n <= |slices|
    requires Within(h[0], low, b) && v <= low
    ensures low <= low' && Within(h[n], low', b)
  {
    HistoryTicked(h, slices, |slices|);
    low' := StaysCloseBy(low, v, h, slices, b, n);
  }

  lemma {:induction false} StaysCloseBy(low: nat, v: nat, h: seq<State>, slices: seq<nat>, b: nat, n: nat)
    returns (low': nat)
    requires TickedFrom(h, slices, 0) && Charges(h, v, b) && n <= |slices|
    requires Within(h[0], low, b) && v <= low
    ensures low <= low' && Within(h[n], low', b) && Start(h, n, v) <= low'
  {
    low' := low;
    if n > 0 {
      low' := StaysCloseBy(low, v, h, slices, b, n - 1);
      assert Ticked(h[n - 1], slices[n - 1], h[n - 1 + 1]) && Paid(h, n - 1, v, b);
      var start;
      start, low' := TickKeepsWithin(h[n - 1], slices[n - 1], h[n], Start(h, n - 1, v), low', b);
    }
  }

  // ---------- what a dispatch charges ----------

  /** Nobody is charged more than `r` for a tick. */
  ghost predicate Rate(s: State, r: nat) {
    forall id :: id in s.ent ==> Charge(TICKUNIT, s.ent[id].inv) <= r
  }

  /** What a dispatch can charge: one tick more than fit into a slice. */
  function Burst(most: nat, r: nat): nat {
    (most / TICKUNIT + 1) * r
  }

  /** The running task has had `m` ticks of at most `r`, within its slice. */
  ghost predicate Going(s: State, start: nat, r: nat, most: nat, m: nat) {
    && s.current in s.ent && s.queue != [] && Rate(s, r)
    && Ran(s.ent[s.current]) == m * TICKUNIT <= most
    && s.ent[s.current].vruntime <= start + m * r
  }

  lemma {:induction false} OneMore(m: nat, r: nat, most: nat)
    requires m * TICKUNIT <= most
    ensures m * r + r == (m + 1) * r <= Burst(most, r)
  {
    Powers.MulMono(m + 1, most / TICKUNIT + 1, r, r);
  }

  lemma {:induction false} TickKeepsGoing(s: State, slice: nat, s': State, start: nat, r: nat, most: nat, m: nat)
    returns (m': nat)
    requires Ticked(s, slice, s') && Going(s, start, r, most, m) && slice <= most
    ensures Vruntime(s', s.current) <= start + Burst(most, r)
    ensures Going(s', if Dispatched(s') then Vruntime(s', s'.current) else start, r, most, m')
  {
    OneMore(m, r, most);
    QueueKept(s, slice, s');
    m' := if RunsOn(s, slice, s') then m + 1 else 0;
  }

  /** As many tasks want to run as before, so somebody still waits. */
  lemma {:induction false} QueueKept(s: State, slice: nat, s': State)
    requires Ticked(s, slice, s') && s.queue != []
    ensures s'.queue != []
  {
    var a, b := s.queue[0], s.current;
    assert a in s.queue && a != b;
    assert s'.ent[a].onRq && s'.ent[b].onRq;
  }

  lemma {:induction false} GoesOn(h: seq<State>, slices: seq<nat>, v: nat, r: nat, most: nat, m: nat, n: nat)
    returns (m': nat)
    requires TickedFrom(h, slices, 0) && n < |h| && Going(h[0], v, r, most, m)
    requires forall i :: 0 <= i < |slices| ==> slices[i] <= most
    ensures Going(h[n], Start(h, n, v), r, most, m')
    ensures n > 0 ==> Paid(h, n - 1, v, Burst(most, r))
  {
    m' := m;
    if n > 0 {
      m' := GoesOn(h, slices, v, r, most, m, n - 1);
      assert Ticked(h[n - 1], slices[n - 1], h[n - 1 + 1]);
      m' := TickKeepsGoing(h[n - 1], slices[n - 1], h[n], Start(h, n - 1, v), r, most, m');
    }
  }

  /** With slices of at most `most` and ticks charged at most `r`, no dispatch charges
      more than `Burst`. */
  lemma {:induction false} DispatchBound(h: seq<State>, slices: seq<nat>, v: nat, r: nat, most: nat, m: nat)
    requires History(h, slices) && (forall i :: 0 <= i < |slices| ==> slices[i] <= most)
    requires Going(h[0], v, r, most, m)
    ensures Charges(h, v, Burst(most, r))
  {
    HistoryTicked(h, slices, |slices|);
    DispatchBy(h, slices, v, r, most, m);
  }

  lemma {:induction false} DispatchBy(h: seq<State>, slices: seq<nat>, v: nat, r: nat, most: nat, m: nat)
    requires TickedFrom(h, slices, 0) && (forall i :: 0 <= i < |slices| ==> slices[i] <= most)
    requires Going(h[0], v, r, most, m)
    ensures Charges(h, v, Burst(most, r))
  {
    var b := Burst(most, r);
    forall i | 0 <= i < |h| - 1 ensures Paid(h, i, v, b) {
      var m' := GoesOn(h, slices, v, r, most, m, i + 1);
    }
  }

  /** So the tasks stay that close, from a dispatch of a least task on. */
  lemma {:induction false} SlicesKeepClose(h: seq<State>, slices: seq<nat>, r: nat, most: nat, n: nat)
    returns (low: nat)
    requires History(h, slices) && n <= |slices| && (forall i :: 0 <= i < |slices| ==> slices[i] <= most)
    requires h[0].queue != [] && Rate(h[0], r) && Dispatched(h[0])
    requires Within(h[0], Vruntime(h[0], h[0].current), Burst(most, r))
    ensures Vruntime(h[0], h[0].current) <= low && Within(h[n], low, Burst(most, r))
  {
    var v := Vruntime(h[0], h[0].current);
    DispatchBound(h, slices, v, r, most, 0);
    low := StaysClose(v, v, h, slices, Burst(most, r), n);
  }

  /** Every tick is charged at most 69 times its length, whatever the nice levels. */
  lemma {:induction false} AnyRate(s: State)
    requires Good(s)
    ensures Rate(s, 69 * TICKUNIT)
  {
    forall id | id in s.ent ensures Charge(TICKUNIT, s.ent[id].inv) <= 69 * TICKUNIT {
      ChargeBound(TICKUNIT, s.ent[id].inv);
    }
  }

  /** At nice 0 a tick is charged its length. */
  lemma {:induction false} NiceZeroRate(s: State)
    requires forall id :: id in s.ent ==> s.ent[id].inv == 0x40_0000
    ensures Rate(s, TICKUNIT)
  {
    assert Powers.Pow2(22) == 0x40_0000 by { Powers.Pow2Values(); }
    Powers.ShrExact(TICKUNIT, 22);
  }
}
