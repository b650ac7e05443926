/** What one timer interrupt does to the list of threads, as a function on values. */
module SchedulerSpec {
  import opened Cycles
  import opened LinkedQueue
  import opened Threads
  import opened Words

  datatype Owner = Owner(user: bool, directory: Word)

  datatype Info = Info(state: ThreadState, reason: BlockedState, delta: Word, regs: Word, stack: Word,
                       parent: Option<Owner>)

  type Table = map<Thread, Info>

  /** The kernel stack and the page directory the processor is set to. */
  datatype Cpu = Cpu(stackTop: Word, directory: Word)

  datatype Sys = Sys(list: seq<Thread>, info: Table, current: Option<Thread>, tick: nat, forced: bool,
                     enabled: bool, cpu: Cpu)

  /** The scheduler as constructed. */
  function Start(): Sys
  {
    Sys([], map[], None, 0, false, false, Cpu(0, 0))
  }

  /** How a call ends: nothing resumed, the frame at `esp` resumed, or a first jump to user mode. */
  datatype Outcome = Quiet | Resume(esp: Word) | EnterUser(thread: Thread)

  predicate Runnable(i: Info)
  {
    i.state.Ready? || i.state.Started?
  }

  predicate EntersUser(i: Info)
  {
    i.state.Started? && i.parent.Some? && i.parent.value.user
  }

  predicate Known(r: seq<Thread>, info: Table)
  {
    forall k :: 0 <= k < |r| ==> r[k] in info
  }

  /** Selection starts after the current thread, or after the first one when none is current. */
  function Anchor(list: seq<Thread>, current: Option<Thread>): Thread
    requires list != []
  {
    if current.Some? then current.value else list[0]
  }

  function Cycle(list: seq<Thread>, current: Option<Thread>): seq<Thread>
    requires list != []
  {
    Rotated(list, IndexIn(list, Anchor(list, current)))
  }

  function FirstRunnable(r: seq<Thread>, info: Table): (w: nat)
    requires Known(r, info)
    ensures w <= |r| && (w < |r| ==> Runnable(info[r[w]]))
    ensures forall k :: 0 <= k < w ==> !Runnable(info[r[k]])
  {
    if r == [] || Runnable(info[r[0]]) then 0 else 1 + FirstRunnable(r[1..], info)
  }

  function FirstAwake(r: seq<Thread>, info: Table): (w: nat)
    requires Known(r, info)
    ensures w <= |r| && (w < |r| ==> !info[r[w]].state.Blocked?)
    ensures forall k :: 0 <= k < w ==> info[r[k]].state.Blocked?
  {
    if r == [] || !info[r[0]].state.Blocked? then 0 else 1 + FirstAwake(r[1..], info)
  }

  /** The stopped threads passed over on the way to the first runnable one. */
  ghost function Doomed(r: seq<Thread>, info: Table): set<Thread>
    requires Known(r, info)
  {
    if r == [] || Runnable(info[r[0]]) then {}
    else Doomed(r[1..], info) + if info[r[0]].state.Stopped? then {r[0]} else {}
  }

  // ---------- a switch ----------

  ghost predicate SomeRunnable(list: seq<Thread>, info: Table)
    requires Known(list, info)
  {
    exists k :: 0 <= k < |list| && Runnable(info[list[k]])
  }

  /** What a switch may rely on. */
  ghost predicate CanSwitch(s: Sys, esp: Word)
  {
    && Distinct(s.list) && Known(s.list, s.info)
    && SomeRunnable(s.list, s.info)
    && (forall k :: 0 <= k < |s.list| && s.info[s.list[k]].state.Started? ==> s.info[s.list[k]].parent.Some?)
    && (s.current.Some? ==> s.current.value in s.list)
    && (s.current.None? ==> esp < HEAP_START)
  }

  ghost predicate SomeAwake(list: seq<Thread>, info: Table)
    requires Known(list, info)
  {
    exists k :: 0 <= k < |list| && !info[list[k]].state.Blocked?
  }

  lemma RunnableAwake(list: seq<Thread>, info: Table)
    requires Known(list, info) && SomeRunnable(list, info)
    ensures list != [] && SomeAwake(list, info)
  {
    var k :| 0 <= k < |list| && Runnable(info[list[k]]);
    assert !info[list[k]].state.Blocked?;
  }

  lemma CycleKnown(list: seq<Thread>, current: Option<Thread>, info: Table)
    requires Known(list, info) && list != []
    ensures Known(Cycle(list, current), info) && |Cycle(list, current)| == |list|
  {
    var p := IndexIn(list, Anchor(list, current));
    forall k | 0 <= k < |list| ensures Cycle(list, current)[k] in info {
      RotatedAt(list, p, k);
    }
  }

  lemma CycleMember(list: seq<Thread>, current: Option<Thread>, t: Thread)
    requires list != []
    ensures t in Cycle(list, current) <==> t in list
  {
    var p := IndexIn(list, Anchor(list, current));
    if j :| 0 <= j < |list| && list[j] == t {
      RotatedHas(list, p, j);
    }
    if k :| 0 <= k < |list| && Cycle(list, current)[k] == t {
      RotatedAt(list, p, k);
    }
  }

  /** The reaping loop finds a thread to run exactly when some listed thread is runnable... */
  lemma CycleRunnable(list: seq<Thread>, current: Option<Thread>, info: Table)
    requires Known(list, info) && list != []
    ensures Known(Cycle(list, current), info) && |Cycle(list, current)| == |list|
    ensures FirstRunnable(Cycle(list, current), info) < |list| <==> SomeRunnable(list, info)
  {
    CycleKnown(list, current, info);
    var p, r := IndexIn(list, Anchor(list, current)), Cycle(list, current);
    if j :| 0 <= j < |list| && Runnable(info[list[j]]) {
      RotatedHas(list, p, j);
    }
    var w := FirstRunnable(r, info);
    if w < |list| {
      RotatedAt(list, p, w);
    }
  }

  /** ...and the scan for a thread that is not blocked ends exactly when there is one. */
  lemma CycleAwake(list: seq<Thread>, current: Option<Thread>, info: Table)
    requires Known(list, info) && list != []
    ensures Known(Cycle(list, current), info) && |Cycle(list, current)| == |list|
    ensures FirstAwake(Cycle(list, current), info) < |list| <==> SomeAwake(list, info)
  {
    CycleKnown(list, current, info);
    var p, r := IndexIn(list, Anchor(list, current)), Cycle(list, current);
    if j :| 0 <= j < |list| && !info[list[j]].state.Blocked? {
      RotatedHas(list, p, j);
    }
    var w := FirstAwake(r, info);
    if w < |list| {
      RotatedAt(list, p, w);
    }
  }

  lemma NextExists(list: seq<Thread>, current: Option<Thread>, info: Table)
    requires Known(list, info) && SomeRunnable(list, info)
    ensures list != []
    ensures var r := Cycle(list, current);
            && Known(r, info) && FirstRunnable(r, info) < |r|
            && r[FirstRunnable(r, info)] in list && r[FirstRunnable(r, info)] in info
            && Runnable(info[r[FirstRunnable(r, info)]])
  {
    hide SomeRunnable, Cycle, Anchor;
    RunnableAwake(list, info);
    CycleRunnable(list, current, info);
    CycleMember(list, current, Cycle(list, current)[FirstRunnable(Cycle(list, current), info)]);
  }

  ghost function Next(list: seq<Thread>, current: Option<Thread>, info: Table): (t: Thread)
    requires Known(list, info) && SomeRunnable(list, info)
    ensures t in list && t in info && Runnable(info[t])
  {
    NextExists(list, current, info);
    var r := Cycle(list, current);
    r[FirstRunnable(r, info)]
  }

  predicate StoppedCurrent(current: Option<Thread>, info: Table)
  {
    current.Some? && current.value in info && info[current.value].state.Stopped?
  }

  /** The current thread, if it is stopped. */
  function Ended(current: Option<Thread>, info: Table): set<Thread>
  {
    if StoppedCurrent(current, info) then {current.value} else {}
  }

  /** The threads a switch deletes. */
  ghost function Dropped(s: Sys): set<Thread>
    requires Known(s.list, s.info) && s.list != []
  {
    CycleKnown(s.list, s.current, s.info);
    Doomed(Cycle(s.list, s.current), s.info) + Ended(s.current, s.info)
  }

  /** A current thread that goes on living keeps the frame it was interrupted with. */
  function Saved(current: Option<Thread>, info: Table, esp: Word): Table
  {
    if current.Some? && current.value in info && !info[current.value].state.Stopped? && esp >= HEAP_START then
      info[current.value := info[current.value].(regs := esp)]
    else
      info
  }

  function StackTop(stack: Word): Word
  {
    (stack + THREAD_STACK_SIZE) % TWO32
  }

  function Loaded(cpu: Cpu, i: Info): Cpu
  {
    Cpu(StackTop(i.stack), if i.parent.Some? && i.parent.value.directory != 0 then i.parent.value.directory
                           else cpu.directory)
  }

  /** The jump into a thread of a user process, which does not come back. */
  function Jump(s: Sys, t: Thread): (Sys, Outcome)
    requires t in s.info && s.info[t].parent.Some?
  {
    (s.(current := Some(t), enabled := true, cpu := Cpu(StackTop(s.info[t].stack), s.info[t].parent.value.directory)),
     EnterUser(t))
  }

  ghost function Switch(s: Sys, esp: Word): (Sys, Outcome)
    requires CanSwitch(s, esp)
  {
    var next := Next(s.list, s.current, s.info);
    var info := Saved(s.current, s.info, esp);
    var s' := s.(list := Without(s.list, Dropped(s)), info := info, current := Some(next));
    if EntersUser(info[next]) then
      Jump(s'.(info := info[next := info[next].(state := Ready)]), next)
    else
      (s'.(cpu := Loaded(s.cpu, info[next])), Resume(info[next].regs))
  }

  // ---------- an interrupt ----------

  predicate Sleeping(i: Info)
  {
    i.state.Blocked? && i.reason.SleepMS? && i.delta > 0
  }

  function CountedDown(i: Info): Info
  {
    if !Sleeping(i) then i
    else i.(delta := i.delta - 1, state := if i.delta == 1 then Ready else Blocked)
  }

  /** One tick for every listed sleeper. */
  function Countdown(list: seq<Thread>, info: Table): Table
  {
    map t | t in info :: if t in list then CountedDown(info[t]) else info[t]
  }

  /** The state an interrupt looks at once the sleepers have been served. */
  function Ticked(s: Sys): Sys
  {
    if s.forced then s.(tick := s.tick + 1, forced := false)
    else s.(tick := s.tick + 1, info := Countdown(s.list, s.info))
  }

  predicate Due(s: Sys)
  {
    s.tick + 1 == SWITCH_TICKS && s.list != [] && s.enabled
  }

  ghost predicate CanInterrupt(s: Sys, esp: Word)
  {
    Due(s) ==> CanSwitch(Ticked(s), esp)
  }

  ghost function Interrupt(s: Sys, esp: Word): (Sys, Outcome)
    requires CanInterrupt(s, esp)
  {
    var s' := Ticked(s);
    if Due(s) then
      Switch(s'.(tick := 0), esp)
    else
      (if s'.tick == SWITCH_TICKS then s'.(tick := 0) else s', Resume(esp))
  }

  /** `ForceSwitch` makes the next interrupt switch, and raises it. */
  function Forcing(s: Sys): Sys
  {
    s.(forced := true, enabled := true, tick := SWITCH_TICKS - 1)
  }

  function Unblocked(s: Sys, t: Thread): Sys
    requires t in s.info
  {
    s.(info := s.info[t := s.info[t].(state := Ready)])
  }

  function Added(s: Sys, t: Thread, i: Info): Sys
  {
    s.(list := s.list + [t], info := s.info[t := i])
  }

  /** A forced first run of a user thread does not go through the interrupt at all. */
  predicate Direct(i: Info)
  {
    i.parent.Some? && i.parent.value.user
  }

  ghost function AddStep(s: Sys, t: Thread, i: Info, force: bool, esp: Word): (Sys, Outcome)
    requires force && !Direct(i) ==> CanInterrupt(Forcing(Added(s, t, i)), esp)
  {
    var s' := Added(s, t, i);
    if !force then (s', Quiet)
    else if Direct(i) then Jump(s', t)
    else Interrupt(Forcing(s'), esp)
  }
}
