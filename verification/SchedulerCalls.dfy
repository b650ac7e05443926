/** What each scheduler call leaves behind, field by field, in terms of the threads' own fields. */
module SchedulerCalls {
  import opened Cycles
  import opened LinkedQueue
  import opened SchedulerSpec
  import opened SwitchLemmas
  import opened SchedulerRuns
  import opened Threads
  import opened Words

  /** The steps of a run are what the methods of the scheduler are proved to do. */
  lemma StepIsCall(s: Sys, e: Event)
    requires Legal(s, e)
    ensures match e
            case Tick(esp) => CanInterrupt(s, esp) && Step(s, e) == Interrupt(s, esp)
            case Force(esp) => CanInterrupt(Forcing(s), esp) && Step(s, e) == Interrupt(Forcing(s), esp)
            case Unblock(t, force, esp) =>
              t in s.info && (force ==> CanInterrupt(Forcing(Unblocked(s, t)), esp))
              && Step(s, e) == if force then Interrupt(Forcing(Unblocked(s, t)), esp) else (Unblocked(s, t), Quiet)
            case Add(t, row, force, esp) =>
              (force && !Direct(row) ==> CanInterrupt(Forcing(Added(s, t, row)), esp))
              && Step(s, e) == AddStep(s, t, row, force, esp)
            case Mark(_, _, _, _) => Step(s, e).1 == Quiet
  {
  }

  /** A step that does not switch: an interrupt that goes back, a direct jump, or neither. */
  lemma QuietParts(s: Sys, e: Event)
    requires Legal(s, e) && !Switches(s, e)
    ensures var b, (z, out) := Base(s, e), Step(s, e);
            && z.list == b.list && z.info == (if Raises(e) then Ticked(b).info else b.info)
            && z.enabled == (b.enabled || Jumps(e))
            && z.current == (if Jumps(e) then Some(e.t) else b.current)
            && (!Jumps(e) ==> z.cpu == b.cpu)
            && out == (if Raises(e) then Resume(EspOf(e)) else if Jumps(e) then EnterUser(e.t) else Quiet)
  {
  }

  /** What an event changes before its interrupt. */
  lemma BaseParts(s: Sys, e: Event)
    requires Names(s, e)
    ensures var b := Base(s, e);
            && b.current == s.current && b.cpu == s.cpu
            && (b.enabled <==> s.enabled || (!e.Tick? && Raises(e)))
            && (Switches(s, e) ==> b.enabled && Raises(e))
  {
  }

  lemma TickedParts(b: Sys)
    ensures var z := Ticked(b).(tick := 0);
            z.list == b.list && z.enabled == b.enabled && z.current == b.current && z.cpu == b.cpu
            && z.info.Keys == b.info.Keys
  {
  }

  // ---------- a switch ----------

  /** The threads in the order a switch tries them: the list read round from behind the current thread, or
      from behind its first one when none is current. */
  function TurnOrder(s: Sys): seq<Thread>
    requires s.list != [] && (s.current.Some? ==> s.current.value in s.list)
  {
    var p := if s.current.Some? then IndexIn(s.list, s.current.value) else 0;
    s.list[p + 1..] + s.list[..p + 1]
  }

  /** The first Ready or Started thread of that order gets the processor; those before it are all Blocked
      or Stopped. */
  lemma SwitchTurns(s: Sys, esp: Word) returns (w: nat)
    requires CanSwitch(s, esp)
    ensures s.list != [] && w < |TurnOrder(s)| == |s.list| && Known(TurnOrder(s), s.info)
    ensures Switch(s, esp).0.current == Some(TurnOrder(s)[w])
    ensures var state := s.info[TurnOrder(s)[w]].state; state == Ready || state == Started
    ensures forall k :: 0 <= k < w ==>
              var state := s.info[TurnOrder(s)[k]].state; state == Blocked || state == Stopped
  {
    RunnableAwake(s.list, s.info);
    CycleRunnable(s.list, s.current, s.info);
    NextIs(s.list, s.current, s.info);
    assert TurnOrder(s) == Cycle(s.list, s.current);
    w := FirstRunnable(TurnOrder(s), s.info);
  }

  lemma SwitchEnds(s: Sys, esp: Word)
    requires CanSwitch(s, esp)
    ensures Known(s.list, s.info) && SomeRunnable(s.list, s.info)
    ensures var next := Next(s.list, s.current, s.info);
            var info := Saved(s.current, s.info, esp);
            && next in s.info && next in info
            && (info[next].state.Started? ==> info[next].parent.Some?)
            && Entered(s, info[next], next, info, Switch(s, esp).0, Switch(s, esp).1)
  {
    hide Next, Saved, SomeRunnable;
    NextInfo(s, esp);
  }

  lemma SavedRow(current: Option<Thread>, info: Table, esp: Word, t: Thread)
    requires t in info
    ensures t in Saved(current, info, esp)
    ensures var i, j := info[t], Saved(current, info, esp)[t];
            && j.state == i.state && j.stack == i.stack && j.parent == i.parent
  {
  }

  /** How the chosen thread gets the processor: on the top of its 4096-byte stack, in its process's
      directory. A Started user thread jumps to user mode and is Ready from then on. Any other is resumed,
      and a directory of 0, or no process, leaves the one that was loaded. */
  lemma SwitchLoads(s: Sys, esp: Word)
    requires CanSwitch(s, esp)
    ensures var (z, out) := Switch(s, esp);
            z.current.Some? && z.current.value in s.info && z.current.value in z.info
            && var t := z.current.value;
            var i := s.info[t];
            && z.cpu.stackTop == (i.stack + 4096) % 0x1_0000_0000
            && (if i.state == Started && i.parent.Some? && i.parent.value.user then
                  out == EnterUser(t) && z.enabled && z.info[t].state == Ready
                  && z.cpu.directory == i.parent.value.directory
                else
                  out == Resume(z.info[t].regs) && z.enabled == s.enabled && z.info[t].state == i.state
                  && z.cpu.directory == if i.parent.Some? && i.parent.value.directory != 0
                                        then i.parent.value.directory else s.cpu.directory)
  {
    hide Switch, CanSwitch, Next, Saved, SomeRunnable;
    SwitchEnds(s, esp);
    SavedRow(s.current, s.info, esp, Next(s.list, s.current, s.info));
  }

  // ---------- adding and waking ----------

  /** An added thread goes to the end of the list. A forced one whose process is a user process is jumped
      into at once; any other forced one causes an interrupt at tick 29 with scheduling enabled. */
  lemma AddDoes(s: Sys, t: Thread, row: Info, force: bool, esp: Word)
    requires Legal(s, Add(t, row, force, esp))
    ensures var added := s.(list := s.list + [t], info := s.info[t := row]);
            var forcing := added.(forced := true, enabled := true, tick := 29);
            if !force then Step(s, Add(t, row, force, esp)) == (added, Quiet)
            else if row.parent.Some? && row.parent.value.user then
              Step(s, Add(t, row, force, esp))
              == (added.(current := Some(t), enabled := true,
                         cpu := Cpu((row.stack + 4096) % 0x1_0000_0000, row.parent.value.directory)), EnterUser(t))
            else CanInterrupt(forcing, esp) && Step(s, Add(t, row, force, esp)) == Interrupt(forcing, esp)
  {
  }

  lemma SwitchKeepsReady(s: Sys, esp: Word, t: Thread)
    requires CanSwitch(s, esp) && t in s.info && s.info[t].state == Ready
    ensures var z := Switch(s, esp).0;
            t in z.info && z.info[t].state == Ready && (t in s.list ==> t in z.list)
  {
    SwitchParts(s, esp);
    SwitchRow(s, esp, t);
    if t in s.list { Spared(s, t); }
  }

  /** `Unblock` makes its thread Ready and touches nothing else; forced, it also switches, which leaves the
      thread Ready and listed. */
  lemma UnblockWakes(s: Sys, t: Thread, force: bool, esp: Word)
    requires SysInv(s) && Legal(s, Unblock(t, force, esp))
    ensures var z := Step(s, Unblock(t, force, esp)).0;
            && t in z.info && z.info[t].state == Ready && (t in s.list ==> t in z.list)
            && (!force ==> z == s.(info := z.info) && z.info == s.info[t := s.info[t].(state := Ready)]
                           && Step(s, Unblock(t, force, esp)).1 == Quiet)
  {
    if force {
      var b := Base(s, Unblock(t, force, esp));
      if Due(b) { SwitchKeepsReady(Ticked(b).(tick := 0), esp, t); }
    }
  }

  /** A listed thread that is unblocked and then left runnable is picked: within n + a switches of the
      n-thread list it is unblocked on, where a threads are added meanwhile and none is jumped into. */
  lemma UnblockedPicked(s: Sys, t: Thread, force: bool, esp: Word, es: seq<Event>)
    requires SysInv(s) && Legal(s, Unblock(t, force, esp)) && t in s.list
    requires var z := Step(s, Unblock(t, force, esp)).0;
             LegalRun(z, es) && SwitchCount(z, es) >= |z.list| + AddCount(es)
    requires AllWait(es, t) && forall k :: 0 <= k < |es| ==> !Jumps(es[k])
    ensures Picked(Step(s, Unblock(t, force, esp)).0, es, t)
  {
    hide Step, SysInv, Legal, LegalRun, SwitchCount, Picked, AddCount, AllWait, Jumps;
    UnblockWakes(s, t, force, esp);
    StepKeeps(s, Unblock(t, force, esp));
    NoStarvation(Step(s, Unblock(t, force, esp)).0, es, t);
  }
}
