/** Whole runs of the scheduler: timer interrupts, forced switches and the kernel code that adds,
    blocks, stops and wakes threads, in any order. */
module SchedulerRuns {
  import opened Cycles
  import opened LinkedQueue
  import opened SchedulerSpec
  import opened SwitchLemmas
  import opened Threads
  import opened Words

  datatype Event =
    | Tick(esp: Word)
    | Force(esp: Word)
    | Unblock(t: Thread, force: bool, esp: Word)
    | Add(t: Thread, row: Info, force: bool, esp: Word)
    | Mark(t: Thread, state: ThreadState, reason: BlockedState, delta: Word)

  predicate Raises(e: Event)
  {
    match e
    case Tick(_) => true
    case Force(_) => true
    case Unblock(_, force, _) => force
    case Add(_, row, force, _) => force && !Direct(row)
    case Mark(_, _, _, _) => false
  }

  function EspOf(e: Event): Word
    requires !e.Mark?
  {
    e.esp
  }

  /** The thread named by an event is one the scheduler knows; an added one is new to it. */
  predicate Names(s: Sys, e: Event)
  {
    match e
    case Unblock(t, _, _) => t in s.info
    case Add(t, row, _, _) => t !in s.info && (row.state.Started? ==> row.parent.Some?)
    case Mark(t, state, _, _) => t in s.info && (state.Started? ==> s.info[t].parent.Some?)
    case _ => true
  }

  /** The state in which the interrupt of `e`, if it raises one, is taken. */
  function Base(s: Sys, e: Event): Sys
    requires Names(s, e)
  {
    match e
    case Tick(_) => s
    case Force(_) => Forcing(s)
    case Unblock(t, force, _) => if force then Forcing(Unblocked(s, t)) else Unblocked(s, t)
    case Add(t, row, force, _) => if force && !Direct(row) then Forcing(Added(s, t, row)) else Added(s, t, row)
    case Mark(t, state, reason, delta) =>
      s.(info := s.info[t := s.info[t].(state := state, reason := reason, delta := delta)])
  }

  ghost predicate Legal(s: Sys, e: Event)
  {
    Names(s, e) && (Raises(e) ==> CanInterrupt(Base(s, e), EspOf(e)))
  }

  ghost function Step(s: Sys, e: Event): (Sys, Outcome)
    requires Legal(s, e)
  {
    if Raises(e) then Interrupt(Base(s, e), EspOf(e))
    else if e.Add? && e.force then Jump(Base(s, e), e.t)
    else (Base(s, e), Quiet)
  }

  ghost predicate LegalRun(s: Sys, es: seq<Event>)
    decreases |es|
  {
    es == [] || (Legal(s, es[0]) && LegalRun(Step(s, es[0]).0, es[1..]))
  }

  ghost function Exec(s: Sys, es: seq<Event>): Sys
    requires LegalRun(s, es)
    decreases |es|
  {
    if es == [] then s else Exec(Step(s, es[0]).0, es[1..])
  }

  // ---------- what every step keeps ----------

  predicate OwnedStarters(list: seq<Thread>, info: Table)
    requires Known(list, info)
  {
    forall k :: 0 <= k < |list| && info[list[k]].state.Started? ==> info[list[k]].parent.Some?
  }

  ghost predicate SysInv(s: Sys)
  {
    && Distinct(s.list) && Known(s.list, s.info) && OwnedStarters(s.list, s.info)
    && (s.current.Some? ==> s.current.value in s.list)
    && s.tick < SWITCH_TICKS && !s.forced
  }

  lemma CountdownKeeps(list: seq<Thread>, info: Table)
    requires Known(list, info) && OwnedStarters(list, info)
    ensures Known(list, Countdown(list, info)) && OwnedStarters(list, Countdown(list, info))
  {
  }

  lemma WithoutOwned(list: seq<Thread>, info: Table, drop: set<Thread>)
    requires Known(list, info) && OwnedStarters(list, info)
    ensures Known(Without(list, drop), info) && OwnedStarters(Without(list, drop), info)
  {
    forall k | 0 <= k < |Without(list, drop)| ensures Without(list, drop)[k] in list {
      WithoutMember(list, drop, Without(list, drop)[k]);
    }
  }

  lemma SwitchKeeps(s: Sys, esp: Word)
    requires CanSwitch(s, esp) && SysInv(s)
    ensures SysInv(Switch(s, esp).0)
  {
    var s' := Switch(s, esp).0;
    SwitchStays(s, esp);
    WithoutDistinct(s.list, Dropped(s));
    WithoutOwned(s.list, s.info, Dropped(s));
  }

  lemma BaseKeeps(s: Sys, e: Event)
    requires SysInv(s) && Names(s, e)
    ensures SysInv(Base(s, e).(forced := false))
  {
  }

  lemma StepKeeps(s: Sys, e: Event)
    requires SysInv(s) && Legal(s, e)
    ensures SysInv(Step(s, e).0)
  {
    BaseKeeps(s, e);
    var b := Base(s, e);
    if Raises(e) {
      CountdownKeeps(b.list, b.info);
      if Due(b) {
        SwitchKeeps(Ticked(b).(tick := 0), EspOf(e));
      }
    }
  }

  /** The list never holds a thread twice, the current thread is always on it, and between calls
      the tick counter is below its limit and no forced switch is pending. */
  lemma {:induction false} RunKeeps(s: Sys, es: seq<Event>)
    requires SysInv(s) && LegalRun(s, es)
    ensures SysInv(Exec(s, es))
    decreases |es|
  {
    if es != [] {
      StepKeeps(s, es[0]);
      RunKeeps(Step(s, es[0]).0, es[1..]);
    }
  }

  // ---------- no starvation ----------

  /** `e` reaches the thirtieth tick with something to switch to. */
  predicate Switches(s: Sys, e: Event)
    requires Names(s, e)
  {
    Raises(e) && Due(Base(s, e))
  }

  /** How many threads stand between the current one and `t` in the order of selection. */
  function Distance(s: Sys, t: Thread): int
    requires s.list != []
  {
    IndexIn(Cycle(s.list, s.current), t)
  }

  lemma DistanceBound(s: Sys, t: Thread)
    requires t in s.list
    ensures 0 <= Distance(s, t) < |s.list|
  {
    CycleMember(s.list, s.current, t);
  }

  lemma StillRunnable(i: Info, j: Info)
    ensures Runnable(i) && (j.state == i.state || j.state == Ready) ==> Runnable(j)
    ensures Runnable(i) ==> !i.state.Stopped?
  {
  }

  lemma DistanceIs(s: Sys, t: Thread)
    ensures s.list != [] ==> Distance(s, t) == IndexIn(Cycle(s.list, s.current), t)
  {
  }

  lemma CycleFrom(list: seq<Thread>, t: Thread)
    requires t in list
    ensures list != [] && 0 <= IndexIn(list, t) && Cycle(list, Some(t)) == Rotated(list, IndexIn(list, t))
  {
  }

  lemma AnchorPlace(list: seq<Thread>, current: Option<Thread>)
    requires list != [] && (current.Some? ==> current.value in list)
    ensures 0 <= IndexIn(list, Anchor(list, current)) < |list|
    ensures Cycle(list, current) == Rotated(list, IndexIn(list, Anchor(list, current)))
  {
  }

  lemma NextPlace(s: Sys, t: Thread)
    requires Known(s.list, s.info) && SomeRunnable(s.list, s.info)
    requires s.list != [] && t in s.list && Runnable(s.info[t]) && t != Next(s.list, s.current, s.info)
    ensures var r := Cycle(s.list, s.current);
            && Known(r, s.info) && |r| == |s.list| && FirstRunnable(r, s.info) < |r| && t in r
            && r[FirstRunnable(r, s.info)] == Next(s.list, s.current, s.info)
            && FirstRunnable(r, s.info) < IndexIn(r, t)
  {
    hide *;
    RunnableAwake(s.list, s.info);
    CycleRunnable(s.list, s.current, s.info);
    CycleMember(s.list, s.current, t);
    NextIs(s.list, s.current, s.info);
    var r := Cycle(s.list, s.current);
    RunnableBefore(r, s.info, IndexIn(r, t));
  }

  /** Read from the chosen thread on, `t` is nearer than read from the current one on. */
  lemma NextCloser(s: Sys, t: Thread)
    requires Distinct(s.list) && Known(s.list, s.info) && SomeRunnable(s.list, s.info)
    requires s.current.Some? ==> s.current.value in s.list
    requires s.list != [] && t in s.list && Runnable(s.info[t]) && t != Next(s.list, s.current, s.info)
    ensures var r := Rotated(s.list, IndexIn(s.list, Next(s.list, s.current, s.info)));
            t in r && 0 <= IndexIn(r, t) < IndexIn(Cycle(s.list, s.current), t)
  {
    hide *;
    var r := Cycle(s.list, s.current);
    NextPlace(s, t);
    AnchorPlace(s.list, s.current);
    RotateAgain(s.list, IndexIn(s.list, Anchor(s.list, s.current)), FirstRunnable(r, s.info));
    NearerAfter(r, FirstRunnable(r, s.info), t);
  }

  lemma KeptNearer(s: Sys, t: Thread)
    requires Distinct(s.list) && Known(s.list, s.info) && SomeRunnable(s.list, s.info)
    requires s.current.Some? ==> s.current.value in s.list
    requires s.list != [] && t in s.list && Runnable(s.info[t]) && t != Next(s.list, s.current, s.info)
    requires t !in Dropped(s) && Next(s.list, s.current, s.info) !in Dropped(s)
    ensures var left := Without(s.list, Dropped(s));
            && left != []
            && 0 <= IndexIn(Cycle(left, Some(Next(s.list, s.current, s.info))), t)
                 < IndexIn(Cycle(s.list, s.current), t)
  {
    hide *;
    var next := Next(s.list, s.current, s.info);
    var left := Without(s.list, Dropped(s));
    RotatedWithout(s.list, next, Dropped(s));
    NextCloser(s, t);
    IndexWithout(Rotated(s.list, IndexIn(s.list, next)), Dropped(s), t);
    CycleFrom(left, next);
  }

  /** A switch that passes `t` over brings it strictly closer. */
  lemma SwitchCloser(s: Sys, esp: Word, t: Thread)
    requires CanSwitch(s, esp) && t in s.list && Runnable(s.info[t])
    ensures var s' := Switch(s, esp).0;
            && t in s'.list && |s'.list| <= |s.list| && t in s'.info && Runnable(s'.info[t])
            && (s'.current == Some(t) || Distance(s', t) < Distance(s, t))
  {
    hide *;
    SwitchParts(s, esp);
    var next := Next(s.list, s.current, s.info);
    SwitchRow(s, esp, t);
    StillRunnable(s.info[t], Switch(s, esp).0.info[t]);
    StillRunnable(s.info[next], s.info[next]);
    Spared(s, t);
    Spared(s, next);
    WithoutLength(s.list, Dropped(s));
    if next != t {
      KeptNearer(s, t);
    }
    DistanceIs(s, t);
    DistanceIs(Switch(s, esp).0, t);
  }

  /** `t`, while it waits, is neither blocked nor stopped. */
  predicate Waits(e: Event, t: Thread)
  {
    e.Mark? && e.t == t ==> e.state.Ready? || e.state.Started?
  }

  predicate AllWait(es: seq<Event>, t: Thread)
  {
    forall k :: 0 <= k < |es| ==> Waits(es[k], t)
  }

  /** The direct jump into an added user thread, which goes round the cycle. */
  predicate Jumps(e: Event)
  {
    e.Add? && e.force && Direct(e.row)
  }

  /** How much further off an event can put a waiting thread on a list that stays within `n`. */
  function Cost(e: Event, n: nat): nat
  {
    if Jumps(e) then n else if e.Add? then 1 else 0
  }

  function Budget(es: seq<Event>, n: nat): nat
  {
    if es == [] then 0 else Cost(es[0], n) + Budget(es[1..], n)
  }

  function AddCount(es: seq<Event>): nat
  {
    if es == [] then 0 else (if es[0].Add? then 1 else 0) + AddCount(es[1..])
  }

  lemma IndexKept<T>(s: seq<T>, u: T, x: T)
    requires x in s
    ensures IndexIn(s + [u], x) == IndexIn(s, x)
  {
    SplitAt(s, x);
    var p := IndexIn(s, x);
    assert s + [u] == s[..p] + [x] + (s[p + 1..] + [u]);
    IndexOfSplit(s[..p], x, s[p + 1..] + [u]);
  }

  lemma AnchorKept(list: seq<Thread>, current: Option<Thread>, u: Thread)
    requires list != [] && (current.Some? ==> current.value in list)
    ensures list + [u] != [] && Anchor(list + [u], current) == Anchor(list, current)
    ensures Anchor(list, current) in list && |list + [u]| == |list| + 1
  {
    assert (list + [u])[0] == list[0];
  }

  lemma CycleIs(list: seq<Thread>, current: Option<Thread>)
    requires list != []
    ensures -1 <= IndexIn(list, Anchor(list, current)) < |list|
    ensures Cycle(list, current) == Rotated(list, IndexIn(list, Anchor(list, current)))
  {
  }

  lemma AppendedAnchor(s: Sys, u: Thread)
    requires s.list != [] && (s.current.Some? ==> s.current.value in s.list)
    ensures var p := IndexIn(s.list, Anchor(s.list, s.current));
            0 <= p < |s.list| && Cycle(s.list + [u], s.current) == Rotated(s.list + [u], p)
  {
    hide *;
    AnchorKept(s.list, s.current, u);
    AnchorPlace(s.list, s.current);
    IndexKept(s.list, u, Anchor(s.list, s.current));
    CycleIs(s.list + [u], s.current);
  }

  lemma AddedDistance(s: Sys, u: Thread, row: Info, t: Thread)
    requires s.list != [] && (s.current.Some? ==> s.current.value in s.list) && u !in s.list && t in s.list
    ensures Distance(Added(s, u, row), t) <= Distance(s, t) + 1
  {
    CycleMember(s.list, s.current, t);
    AnchorPlace(s.list, s.current);
    IndexAppended(s.list, IndexIn(s.list, Anchor(s.list, s.current)), u, t);
    AppendedAnchor(s, u);
  }

  /** Where the interrupt of an event starts from, `t` is at most one place further off. */
  lemma BaseDistance(s: Sys, e: Event, t: Thread)
    requires SysInv(s) && Names(s, e) && Waits(e, t) && t in s.list && Runnable(s.info[t])
    ensures var b := Base(s, e);
            && t in b.list && t in b.info && Runnable(b.info[t]) && b.current == s.current
            && |b.list| == |s.list| + (if e.Add? then 1 else 0)
            && Distance(b, t) <= Distance(s, t) + (if e.Add? then 1 else 0)
  {
    if e.Add? {
      AddedDistance(s, e.t, e.row, t);
      assert (s.list + [e.t])[..|s.list|] == s.list;
    }
  }

  lemma SwitchStep(s: Sys, e: Event)
    requires Legal(s, e) && Switches(s, e)
    ensures Raises(e) && CanSwitch(Ticked(Base(s, e)).(tick := 0), EspOf(e))
    ensures Step(s, e) == Switch(Ticked(Base(s, e)).(tick := 0), EspOf(e))
  {
  }

  lemma TickedDistance(b: Sys, t: Thread)
    requires b.list != [] && t in b.info && Runnable(b.info[t])
    ensures var z := Ticked(b).(tick := 0);
            z.list == b.list && Distance(z, t) == Distance(b, t) && t in z.info && Runnable(z.info[t])
  {
  }

  /** A step that does not switch: only a jump changes the current thread. */
  lemma QuietStep(s: Sys, e: Event, t: Thread)
    requires SysInv(s) && Legal(s, e) && !Switches(s, e)
    requires t in Base(s, e).list && t in Base(s, e).info && Runnable(Base(s, e).info[t])
    ensures var s', b := Step(s, e).0, Base(s, e);
            && s'.list == b.list && t in s'.info && Runnable(s'.info[t])
            && (!Jumps(e) ==> s'.current == b.current)
  {
  }

  lemma JumpsQuietly(s: Sys, e: Event)
    requires Names(s, e) && Switches(s, e)
    ensures !Jumps(e)
  {
  }

  /** A step puts a waiting thread at most its cost further off, and a switch that does not pick it
      brings it one place closer than that. */
  lemma StepCloser(s: Sys, e: Event, t: Thread, n: nat)
    requires SysInv(s) && Legal(s, e) && Waits(e, t) && t in s.list && Runnable(s.info[t])
    requires |s.list| + (if e.Add? then 1 else 0) <= n
    ensures var s' := Step(s, e).0;
            && t in s'.list && |s'.list| <= |s.list| + (if e.Add? then 1 else 0)
            && t in s'.info && Runnable(s'.info[t])
            && (if Switches(s, e) then s'.current == Some(t) || Distance(s', t) < Distance(s, t) + Cost(e, n)
                else Distance(s', t) <= Distance(s, t) + Cost(e, n))
  {
    hide SysInv, Step, Base, Waits, Distance, Switches, Raises, Runnable;
    var b := Base(s, e);
    BaseDistance(s, e, t);
    DistanceBound(s, t);
    if Switches(s, e) {
      SwitchStep(s, e);
      TickedDistance(b, t);
      SwitchCloser(Ticked(b).(tick := 0), EspOf(e), t);
      JumpsQuietly(s, e);
    } else {
      QuietStep(s, e, t);
      if Jumps(e) {
        DistanceBound(Step(s, e).0, t);
      } else {
        DistanceIs(b, t);
        DistanceIs(Step(s, e).0, t);
      }
    }
  }

  ghost function SwitchCount(s: Sys, es: seq<Event>): nat
    requires LegalRun(s, es)
    decreases |es|
  {
    if es == [] then 0
    else (if Switches(s, es[0]) then 1 else 0) + SwitchCount(Step(s, es[0]).0, es[1..])
  }

  function InterruptCount(es: seq<Event>): nat
  {
    if es == [] then 0 else (if Raises(es[0]) then 1 else 0) + InterruptCount(es[1..])
  }

  /** Some switch of the run picks `t`. */
  ghost predicate Picked(s: Sys, es: seq<Event>, t: Thread)
    requires LegalRun(s, es)
    decreases |es|
  {
    es != [] && ((Switches(s, es[0]) && Step(s, es[0]).0.current == Some(t))
                 || Picked(Step(s, es[0]).0, es[1..], t))
  }

  /** The bound that holds in every window: each thread added costs a waiting one a switch, each
      direct jump a whole round. */
  lemma {:induction false} PickedWithin(s: Sys, es: seq<Event>, t: Thread, n: nat)
    requires SysInv(s) && LegalRun(s, es) && AllWait(es, t)
    requires t in s.list && Runnable(s.info[t]) && |s.list| + AddCount(es) <= n
    requires SwitchCount(s, es) > Distance(s, t) + Budget(es, n)
    ensures Picked(s, es, t)
    decreases |es|
  {
    DistanceBound(s, t);
    var e, s' := es[0], Step(s, es[0]).0;
    StepCloser(s, e, t, n);
    StepKeeps(s, e);
    if !(Switches(s, e) && s'.current == Some(t)) {
      PickedWithin(s', es[1..], t, n);
    }
  }

  lemma {:induction false} NoJumpBudget(es: seq<Event>, n: nat)
    requires forall k :: 0 <= k < |es| ==> !Jumps(es[k])
    ensures Budget(es, n) == AddCount(es)
  {
    if es != [] {
      assert !Jumps(es[0]);
      NoJumpBudget(es[1..], n);
    }
  }

  /** No starvation, in switches: a thread that stays runnable on a list of n is picked by one of any
      n + a switches, where a threads are added meanwhile and none of them is jumped into. */
  lemma NoStarvation(s: Sys, es: seq<Event>, t: Thread)
    requires SysInv(s) && LegalRun(s, es) && AllWait(es, t)
    requires forall k :: 0 <= k < |es| ==> !Jumps(es[k])
    requires t in s.list && Runnable(s.info[t]) && SwitchCount(s, es) >= |s.list| + AddCount(es)
    ensures Picked(s, es, t)
  {
    hide *;
    DistanceBound(s, t);
    NoJumpBudget(es, |s.list| + AddCount(es));
    PickedWithin(s, es, t, |s.list| + AddCount(es));
  }

  lemma StepTicks(s: Sys, e: Event)
    requires SysInv(s) && Legal(s, e) && s.enabled && s.list != []
    ensures var s' := Step(s, e).0;
            && s'.enabled
            && s'.tick + (if Switches(s, e) then SWITCH_TICKS else 0) >= s.tick + if Raises(e) then 1 else 0
  {
  }

  /** A step never empties the list. */
  lemma StepStaysBusy(s: Sys, e: Event)
    requires SysInv(s) && Legal(s, e) && s.list != []
    ensures Step(s, e).0.list != []
  {
    if Switches(s, e) {
      SwitchStep(s, e);
      var z := Ticked(Base(s, e)).(tick := 0);
      SwitchStays(z, EspOf(e));
      SwitchParts(z, EspOf(e));
    }
  }

  /** While threads are listed and scheduling is enabled, thirty interrupts, forced or not, never pass
      without a switch. */
  lemma {:induction false} ThirtySwitch(s: Sys, es: seq<Event>)
    requires SysInv(s) && LegalRun(s, es) && s.enabled && s.list != []
    ensures SWITCH_TICKS * SwitchCount(s, es) + Exec(s, es).tick >= InterruptCount(es) + s.tick
    decreases |es|
  {
    if es != [] {
      var e, s' := es[0], Step(s, es[0]).0;
      StepKeeps(s, e);
      StepTicks(s, e);
      StepStaysBusy(s, e);
      ThirtySwitch(s', es[1..]);
    }
  }

  lemma TickBound(s: Sys)
    requires SysInv(s)
    ensures s.tick < SWITCH_TICKS == 30
  {
  }

  /** No starvation, in time: within 30 (n + a) interrupts. */
  lemma NoStarvationInTime(s: Sys, es: seq<Event>, t: Thread)
    requires SysInv(s) && LegalRun(s, es) && AllWait(es, t)
    requires forall k :: 0 <= k < |es| ==> !Jumps(es[k])
    requires s.enabled && t in s.list && Runnable(s.info[t])
    requires InterruptCount(es) >= SWITCH_TICKS * (|s.list| + AddCount(es))
    ensures Picked(s, es, t)
  {
    hide *;
    ThirtySwitch(s, es);
    RunKeeps(s, es);
    TickBound(Exec(s, es));
    NoStarvation(s, es, t);
  }

  // ---------- starvation by jumps ----------

  /** Add a user thread and jump into it, then switch; again for each thread of `xs`. */
  function JumpRun(xs: seq<Thread>, row: Info, esp: Word): seq<Event>
  {
    if xs == [] then [] else [Add(xs[0], row, true, esp), Force(esp)] + JumpRun(xs[1..], row, esp)
  }

  /** The thread added last is current and last on the list, so the scan starts at the head. */
  lemma HeadNext(list: seq<Thread>, x: Thread, info: Table)
    requires list != [] && x !in list && Known(list + [x], info) && list[0] in info && Runnable(info[list[0]])
    ensures SomeRunnable(list + [x], info) && Next(list + [x], Some(x), info) == list[0]
  {
    var l := list + [x];
    assert l[0] == list[0];
    IndexOfSplit(list, x, []);
    assert list + [x] + [] == l;
    assert Rotated(l, |list|) == l;
    NextIs(l, Some(x), info);
  }

  lemma HeadStays(z: Sys, esp: Word, t: Thread)
    requires CanSwitch(z, esp) && z.list != [] && Next(z.list, z.current, z.info) == z.list[0]
    requires t in z.list && t in z.info && Runnable(z.info[t])
    ensures var s' := Switch(z, esp).0;
            && s'.list != [] && s'.list[0] == z.list[0] && s'.current == Some(z.list[0]) && t in s'.list
            && s'.info.Keys == z.info.Keys && Runnable(s'.info[t]) && Runnable(s'.info[z.list[0]])
  {
    var u := z.list[0];
    SwitchParts(z, esp);
    SwitchRow(z, esp, t);
    SwitchRow(z, esp, u);
    Spared(z, t);
    Spared(z, u);
    NextInfo(z, esp);
  }

  /** The state after the jump. */
  lemma JumpState(s: Sys, x: Thread, row: Info, esp: Word)
    requires SysInv(s) && s.list != [] && x !in s.info && Direct(row)
    ensures Legal(s, Add(x, row, true, esp)) && !Switches(s, Add(x, row, true, esp))
    ensures var s1 := Step(s, Add(x, row, true, esp)).0;
            && s1.list == s.list + [x] && s1.list[0] == s.list[0] && x !in s.list
            && s1.info == s.info[x := row] && s1.current == Some(x)
  {
  }

  /** A forced switch with a current thread, seen where it is taken. */
  lemma ForcedState(s: Sys, esp: Word) returns (z: Sys)
    requires SysInv(s) && s.list != [] && SomeRunnable(s.list, s.info) && s.current.Some?
    ensures Legal(s, Force(esp)) && Switches(s, Force(esp))
    ensures z.list == s.list && z.info == s.info && z.current == s.current
    ensures CanSwitch(z, esp) && Step(s, Force(esp)) == Switch(z, esp)
  {
    z := Ticked(Base(s, Force(esp))).(tick := 0);
    assert CanSwitch(z, esp);
    SwitchStep(s, Force(esp));
  }

  /** One jump and the switch after it pick the head of the list again. */
  lemma JumpThenHead(s: Sys, x: Thread, row: Info, esp: Word, t: Thread)
    requires SysInv(s) && s.list != [] && x !in s.info && Direct(row)
    requires Runnable(s.info[s.list[0]]) && t in s.list && t != s.list[0] && Runnable(s.info[t])
    ensures Legal(s, Add(x, row, true, esp)) && !Switches(s, Add(x, row, true, esp))
    ensures var s1 := Step(s, Add(x, row, true, esp)).0;
            && Legal(s1, Force(esp)) && Switches(s1, Force(esp))
            && var s2 := Step(s1, Force(esp)).0;
            && SysInv(s2) && s2.list != [] && s2.list[0] == s.list[0] && s2.current == Some(s.list[0])
            && s2.list[0] in s2.info && Runnable(s2.info[s2.list[0]]) && t in s2.list && t in s2.info
            && Runnable(s2.info[t]) && s2.info.Keys == s.info.Keys + {x}
  {
    hide Step, Base, Names, Raises, Switches, Direct, Runnable, CanInterrupt, Switch, SomeRunnable, Next;
    var u := s.list[0];
    JumpState(s, x, row, esp);
    var s1 := Step(s, Add(x, row, true, esp)).0;
    StepKeeps(s, Add(x, row, true, esp));
    HeadNext(s.list, x, s1.info);
    var z := ForcedState(s1, esp);
    StepKeeps(s1, Force(esp));
    HeadStays(z, esp, t);
  }

  lemma TwoSteps(s: Sys, e1: Event, e2: Event, rest: seq<Event>, t: Thread)
    requires Legal(s, e1) && Legal(Step(s, e1).0, e2) && LegalRun(Step(Step(s, e1).0, e2).0, rest)
    ensures var es, s1 := [e1, e2] + rest, Step(s, e1).0;
            && LegalRun(s, es)
            && SwitchCount(s, es) == (if Switches(s, e1) then 1 else 0) + (if Switches(s1, e2) then 1 else 0)
                                     + SwitchCount(Step(s1, e2).0, rest)
            && (Picked(s, es, t) <==> (Switches(s, e1) && s1.current == Some(t))
                                      || (Switches(s1, e2) && Step(s1, e2).0.current == Some(t))
                                      || Picked(Step(s1, e2).0, rest, t))
  {
    var es := [e1, e2] + rest;
    assert es[1..] == [e2] + rest && es[1..][1..] == rest && es[0] == e1 && es[1..][0] == e2;
  }

  /** With jumps there is no bound: whatever the number of switches, a runnable thread behind a
      runnable head is never picked. So `NoStarvation` cannot do without its condition. */
  lemma {:induction false} JumpsStarve(s: Sys, xs: seq<Thread>, row: Info, esp: Word, t: Thread)
    requires SysInv(s) && s.list != [] && Direct(row) && Distinct(xs)
    requires forall k :: 0 <= k < |xs| ==> xs[k] !in s.info
    requires Runnable(s.info[s.list[0]]) && t in s.list && t != s.list[0] && Runnable(s.info[t])
    ensures var es := JumpRun(xs, row, esp);
            LegalRun(s, es) && AllWait(es, t) && SwitchCount(s, es) == |xs| && !Picked(s, es, t)
    decreases |xs|
  {
    hide Step, Legal, SysInv, Switches, Runnable, Direct;
    if xs != [] {
      JumpThenHead(s, xs[0], row, esp, t);
      var e1, e2 := Add(xs[0], row, true, esp), Force(esp);
      var s1 := Step(s, e1).0;
      var s2 := Step(s1, e2).0;
      var rest := JumpRun(xs[1..], row, esp);
      JumpsStarve(s2, xs[1..], row, esp, t);
      TwoSteps(s, e1, e2, rest, t);
      assert JumpRun(xs, row, esp) == [e1, e2] + rest;
    }
  }

  // ---------- sleeping ----------

  /** A sleeper with `k` ticks to go, or one that has been woken. */
  predicate Phase(i: Info, k: int)
  {
    if k > 0 then i.state.Blocked? && i.reason.SleepMS? && i.delta == k else i.state.Ready?
  }

  /** Nothing but the clock touches `t`. */
  predicate LeavesAlone(e: Event, t: Thread)
  {
    match e
    case Unblock(u, _, _) => u != t
    case Mark(u, _, _, _) => u != t
    case Add(u, _, _, _) => u != t
    case _ => true
  }

  function TickCount(es: seq<Event>): nat
  {
    if es == [] then 0 else (if es[0].Tick? then 1 else 0) + TickCount(es[1..])
  }

  lemma SwitchPhase(s: Sys, esp: Word, t: Thread, k: int)
    requires CanSwitch(s, esp) && t in s.list && Phase(s.info[t], k)
    ensures var s' := Switch(s, esp).0;
            t in s'.list && t in s'.info && Phase(s'.info[t], k)
  {
    SwitchParts(s, esp);
    SwitchRow(s, esp, t);
    Spared(s, t);
  }

  lemma StepPhase(s: Sys, e: Event, t: Thread, k: int)
    requires SysInv(s) && Legal(s, e) && LeavesAlone(e, t)
    requires t in s.list && Phase(s.info[t], k)
    ensures var s' := Step(s, e).0;
            t in s'.list && t in s'.info && Phase(s'.info[t], if e.Tick? then k - 1 else k)
  {
    var b := Base(s, e);
    if Raises(e) && Due(b) {
      SwitchPhase(Ticked(b).(tick := 0), EspOf(e), t, if e.Tick? then k - 1 else k);
    }
  }

  /** A thread put to sleep for k ticks is blocked through the first k - 1 timer interrupts and
      ready from exactly the k-th on. Forced interrupts do not count. */
  lemma {:induction false} SleepsExactly(s: Sys, es: seq<Event>, t: Thread, k: int)
    requires SysInv(s) && LegalRun(s, es) && t in s.list && Phase(s.info[t], k)
    requires forall i :: 0 <= i < |es| ==> LeavesAlone(es[i], t)
    ensures t in Exec(s, es).list && t in Exec(s, es).info
    ensures Phase(Exec(s, es).info[t], k - TickCount(es))
    decreases |es|
  {
    if es != [] {
      StepPhase(s, es[0], t, k);
      StepKeeps(s, es[0]);
      SleepsExactly(Step(s, es[0]).0, es[1..], t, if es[0].Tick? then k - 1 else k);
    }
  }

  /** The countdown itself: a row changes exactly when it is listed and blocked in a sleep with ticks to go,
      and then only in its count and, when that reaches zero, its state. */
  lemma CountdownOnlySleepers(list: seq<Thread>, info: Table, t: Thread)
    requires t in info
    ensures t in Countdown(list, info)
    ensures var i, j := info[t], Countdown(list, info)[t];
            && (j != i <==> t in list && i.state == Blocked && i.reason == SleepMS && i.delta > 0)
            && (j != i ==> j.delta == i.delta - 1 && j.state == (if i.delta == 1 then Ready else Blocked))
            && j.reason == i.reason && j.regs == i.regs && j.stack == i.stack && j.parent == i.parent
  {
  }

  // ---------- contexts ----------

  /** The switch of `e` takes the processor from `t`, which lives on. */
  predicate Leaves(s: Sys, e: Event, t: Thread)
  {
    && Names(s, e) && Switches(s, e) && s.current == Some(t)
    && t in Ticked(Base(s, e)).info && !Ticked(Base(s, e)).info[t].state.Stopped?
  }

  /** ...and its frame, which is on a kernel stack in the heap, is recorded. */
  predicate Saves(s: Sys, e: Event, t: Thread)
  {
    Leaves(s, e, t) && EspOf(e) >= HEAP_START
  }

  /** The frame `t` was last interrupted with above the heap start during the run, or `start`. */
  ghost function LastFrame(s: Sys, es: seq<Event>, t: Thread, start: Word): Word
    requires LegalRun(s, es)
    decreases |es|
  {
    if es == [] then start
    else LastFrame(Step(s, es[0]).0, es[1..], t, if Saves(s, es[0], t) then EspOf(es[0]) else start)
  }

  /** What no step changes about a thread. */
  predicate Same(i: Info, j: Info)
  {
    i.stack == j.stack && i.parent == j.parent
  }

  lemma SwitchFrame(s: Sys, esp: Word, t: Thread)
    requires CanSwitch(s, esp) && t in s.info
    ensures t in Switch(s, esp).0.info
    ensures Switch(s, esp).0.info[t].regs ==
            if s.current == Some(t) && !s.info[t].state.Stopped? && esp >= HEAP_START then esp else s.info[t].regs
  {
  }

  /** Up to the switch itself no frame and no place on the list changes. */
  lemma BaseRow(s: Sys, e: Event, t: Thread)
    requires SysInv(s) && Legal(s, e) && t in s.info
    ensures var b := Ticked(Base(s, e));
            && t in b.info && b.info[t].regs == s.info[t].regs && Same(b.info[t], s.info[t])
            && b.current == s.current && (t in s.list ==> t in b.list)
    ensures t in Base(s, e).info && Base(s, e).info[t].regs == s.info[t].regs
    ensures Same(Base(s, e).info[t], s.info[t])
  {
  }

  lemma StepFrame(s: Sys, e: Event, t: Thread)
    requires SysInv(s) && Legal(s, e) && t in s.info
    ensures t in Step(s, e).0.info
    ensures Step(s, e).0.info[t].regs == if Saves(s, e, t) then EspOf(e) else s.info[t].regs
  {
    BaseRow(s, e, t);
    if Raises(e) && Due(Base(s, e)) {
      SwitchFrame(Ticked(Base(s, e)).(tick := 0), EspOf(e), t);
    }
  }

  lemma {:induction false} FramesKept(s: Sys, es: seq<Event>, t: Thread)
    requires SysInv(s) && LegalRun(s, es) && t in s.info
    ensures t in Exec(s, es).info
    ensures Exec(s, es).info[t].regs == LastFrame(s, es, t, s.info[t].regs)
    decreases |es|
  {
    if es != [] {
      StepFrame(s, es[0], t);
      StepKeeps(s, es[0]);
      FramesKept(Step(s, es[0]).0, es[1..], t);
    }
  }

  /** A switch that resumes `t` resumes the very frame it was last interrupted with, or its first
      frame if it never ran; when it goes on running itself, the frame just interrupted. */
  lemma ResumesLastFrame(s: Sys, es: seq<Event>, e: Event, t: Thread)
    requires SysInv(s) && LegalRun(s, es) && t in s.info
    requires var z := Exec(s, es);
             && Legal(z, e) && Switches(z, e)
             && Step(z, e).0.current == Some(t) && Step(z, e).1.Resume?
    ensures var z := Exec(s, es);
            Step(z, e).1.esp == if Saves(z, e, t) then EspOf(e) else LastFrame(s, es, t, s.info[t].regs)
  {
    var z := Exec(s, es);
    RunKeeps(s, es);
    FramesKept(s, es, t);
    StepFrame(z, e, t);
  }

  /** An interrupt that does not switch goes back to where it came from. */
  lemma NoSwitchNoChange(s: Sys, e: Event)
    requires SysInv(s) && Legal(s, e) && Raises(e) && !Switches(s, e)
    ensures Step(s, e).1 == Resume(EspOf(e)) && Step(s, e).0.current == s.current && Step(s, e).0.cpu == s.cpu
  {
  }

  /** The current thread changes only by a switch or by the direct jump. */
  lemma StepCurrent(s: Sys, e: Event)
    requires SysInv(s) && Legal(s, e) && Step(s, e).0.current != s.current
    ensures Switches(s, e) || (e.Add? && e.force && Direct(e.row))
    ensures Switches(s, e) ==> Base(s, e).list != []
  {
  }

  /** What becomes of the frame of a current thread that loses the processor and lives on: every
      switch above the heap start records it, but the direct jump into an added user thread drops it. */
  lemma ReplacedFrame(s: Sys, e: Event, c: Thread)
    requires SysInv(s) && Legal(s, e) && s.current == Some(c)
    requires Step(s, e).0.current != Some(c) && c in Step(s, e).0.list
    ensures c in Step(s, e).0.info
    ensures Step(s, e).0.info[c].regs == if Raises(e) && EspOf(e) >= HEAP_START then EspOf(e) else s.info[c].regs
    ensures !Raises(e) <==> e.Add? && e.force && Direct(e.row)
  {
    StepFrame(s, e, c);
    BaseRow(s, e, c);
    StepCurrent(s, e);
    if Raises(e) {
      var b := Ticked(Base(s, e)).(tick := 0);
      CycleKnown(b.list, b.current, b.info);
      WithoutMember(b.list, Dropped(b), c);
    }
  }

  // ---------- the processor ----------

  /** The processor enters the kernel on the current thread's stack and runs in its process's
      directory, when it has one. */
  predicate CpuFollows(s: Sys)
  {
    s.current.Some? && s.current.value in s.info ==>
      var i := s.info[s.current.value];
      && s.cpu.stackTop == (i.stack + 4096) % 0x1_0000_0000
      && (i.parent.Some? && i.parent.value.directory != 0 ==> s.cpu.directory == i.parent.value.directory)
  }

  lemma SwitchFollows(s: Sys, esp: Word)
    requires CanSwitch(s, esp)
    ensures CpuFollows(Switch(s, esp).0)
  {
    NextInfo(s, esp);
  }

  lemma StepFollows(s: Sys, e: Event)
    requires SysInv(s) && Legal(s, e) && CpuFollows(s)
    ensures CpuFollows(Step(s, e).0)
  {
    if Raises(e) && Due(Base(s, e)) {
      SwitchFollows(Ticked(Base(s, e)).(tick := 0), EspOf(e));
    } else if s.current.Some? {
      BaseRow(s, e, s.current.value);
    }
  }

  lemma {:induction false} RunFollows(s: Sys, es: seq<Event>)
    requires SysInv(s) && LegalRun(s, es) && CpuFollows(s)
    ensures CpuFollows(Exec(s, es))
    decreases |es|
  {
    if es != [] {
      StepFollows(s, es[0]);
      StepKeeps(s, es[0]);
      RunFollows(Step(s, es[0]).0, es[1..]);
    }
  }
}
