/** What whole runs of the scheduler leave alone, and when they switch at all. */
module SchedulerTraces {
  import opened Cycles
  import opened LinkedQueue
  import opened SchedulerSpec
  import opened SwitchLemmas
  import opened SchedulerRuns
  import opened SchedulerCalls
  import opened Threads
  import opened Words

  // ---------- threads the clock cannot wake ----------

  /** Blocked for something other than time, or in a sleep whose count is used up. */
  predicate Waiting(i: Info)
  {
    i.state == Blocked && (i.reason != SleepMS || i.delta == 0)
  }

  predicate SameWait(i: Info, j: Info)
  {
    j.state == i.state && j.reason == i.reason && j.delta == i.delta
  }

  lemma SwitchWaits(s: Sys, esp: Word, t: Thread)
    requires CanSwitch(s, esp) && t in s.info && Waiting(s.info[t])
    ensures var z := Switch(s, esp).0;
            t in z.info && SameWait(s.info[t], z.info[t]) && (t in s.list <==> t in z.list)
  {
    SwitchParts(s, esp);
    SwitchRow(s, esp, t);
    WithoutMember(s.list, Dropped(s), t);
    if t in s.list { Spared(s, t); }
  }

  lemma StepWaits(s: Sys, e: Event, t: Thread)
    requires SysInv(s) && Legal(s, e) && LeavesAlone(e, t) && t in s.info && Waiting(s.info[t])
    ensures var z := Step(s, e).0;
            t in z.info && SameWait(s.info[t], z.info[t]) && (t in s.list <==> t in z.list)
  {
    var b := Base(s, e);
    if Raises(e) && Due(b) {
      SwitchWaits(Ticked(b).(tick := 0), EspOf(e), t);
    }
  }

  /** A thread blocked for a message, or for no stated reason, is never woken by the clock: while no call
      names it, it keeps its state, its reason, its count and its place on the list through every run. */
  lemma {:induction false} RunWaits(s: Sys, es: seq<Event>, t: Thread)
    requires SysInv(s) && LegalRun(s, es) && t in s.info && Waiting(s.info[t])
    requires forall k :: 0 <= k < |es| ==> LeavesAlone(es[k], t)
    ensures var z := Exec(s, es);
            t in z.info && SameWait(s.info[t], z.info[t]) && (t in s.list <==> t in z.list)
    decreases |es|
  {
    if es != [] {
      StepWaits(s, es[0], t);
      StepKeeps(s, es[0]);
      RunWaits(Step(s, es[0]).0, es[1..], t);
    }
  }

  // ---------- before scheduling is enabled ----------

  /** The calls that enable scheduling: those made with a forced switch. */
  predicate Enables(e: Event)
  {
    e.Force? || (e.Unblock? && e.force) || (e.Add? && e.force)
  }

  lemma EnablesBy(s: Sys, e: Event)
    requires Names(s, e)
    ensures Enables(e) <==> Jumps(e) || (!e.Tick? && Raises(e))
    ensures Jumps(e) ==> !Raises(e)
  {
  }

  lemma StepEnabled(s: Sys, e: Event)
    requires Legal(s, e)
    ensures Step(s, e).0.enabled <==> s.enabled || Enables(e)
    ensures !s.enabled && !Enables(e) ==>
              !Switches(s, e) && Step(s, e).0.current == s.current && Step(s, e).0.cpu == s.cpu
  {
    hide Step, Base, Switches, Raises, Direct, CanInterrupt;
    BaseParts(s, e);
    EnablesBy(s, e);
    if Switches(s, e) {
      var z := Ticked(Base(s, e)).(tick := 0);
      SwitchStep(s, e);
      TickedParts(Base(s, e));
      SwitchLoads(z, EspOf(e));
    } else {
      QuietParts(s, e);
    }
  }

  /** Scheduling is enabled after a run exactly when it was before or a call of the run forced a switch. */
  lemma {:induction false} RunEnabled(s: Sys, es: seq<Event>)
    requires LegalRun(s, es)
    ensures Exec(s, es).enabled <==> s.enabled || exists k :: 0 <= k < |es| && Enables(es[k])
    decreases |es|
  {
    if es != [] {
      StepEnabled(s, es[0]);
      RunEnabled(Step(s, es[0]).0, es[1..]);
      if j :| 0 <= j < |es[1..]| && Enables(es[1..][j]) { assert es[j + 1] == es[1..][j]; }
      if k :| 0 <= k < |es| && Enables(es[k]) { assert k > 0 ==> es[1..][k - 1] == es[k]; }
    }
  }

  /** Until then nothing is switched or loaded, however many interrupts there are. */
  lemma {:induction false} RunIdle(s: Sys, es: seq<Event>)
    requires LegalRun(s, es) && !s.enabled && forall k :: 0 <= k < |es| ==> !Enables(es[k])
    ensures SwitchCount(s, es) == 0
    ensures Exec(s, es).current == s.current && Exec(s, es).cpu == s.cpu && !Exec(s, es).enabled
    decreases |es|
  {
    if es != [] {
      assert !Enables(es[0]);
      StepEnabled(s, es[0]);
      RunIdle(Step(s, es[0]).0, es[1..]);
    }
  }

  /** The constructed scheduler is such a state: no thread runs before the first forced call. */
  lemma StartIdle(es: seq<Event>)
    requires LegalRun(Start(), es) && forall k :: 0 <= k < |es| ==> !Enables(es[k])
    ensures SysInv(Start()) && SwitchCount(Start(), es) == 0 && Exec(Start(), es).current == None
  {
    RunIdle(Start(), es);
  }

  // ---------- how often it switches ----------

  lemma StepTick(s: Sys, e: Event)
    requires SysInv(s) && Legal(s, e) && (Raises(e) ==> e.Tick?)
    ensures var n := s.tick + if e.Tick? then 1 else 0; Step(s, e).0.tick == if n == 30 then 0 else n
  {
  }

  lemma StepSlice(s: Sys, e: Event)
    requires SysInv(s) && Legal(s, e) && s.enabled && s.list != [] && (Raises(e) ==> e.Tick?)
    ensures Switches(s, e) <==> e.Tick? && s.tick + 1 == 30
    ensures Step(s, e).0.enabled
  {
  }

  lemma SliceSum(tick: nat, here: nat, later: nat)
    requires tick < 30 && here <= 1
    ensures var n := tick + here;
            var left := if n == 30 then 0 else n;
            && (tick + here + later) / 30 == (if n == 30 then 1 else 0) + (left + later) / 30
            && (tick + here + later) % 30 == (left + later) % 30
  {
  }

  /** With no forced switch the tick counter is the number of timer interrupts modulo thirty, whether or not
      there is anything to switch to. */
  lemma {:induction false} ExactTicks(s: Sys, es: seq<Event>)
    requires SysInv(s) && LegalRun(s, es) && forall k :: 0 <= k < |es| && Raises(es[k]) ==> es[k].Tick?
    ensures Exec(s, es).tick == (s.tick + TickCount(es)) % 30
    decreases |es|
  {
    TickBound(s);
    if es != [] {
      StepTick(s, es[0]);
      StepKeeps(s, es[0]);
      ExactTicks(Step(s, es[0]).0, es[1..]);
      SliceSum(s.tick, if es[0].Tick? then 1 else 0, TickCount(es[1..]));
    }
  }

  /** With scheduling enabled, a thread then has the processor for exactly thirty timer interrupts at a time:
      the number of switches is the number of whole slices the clock has counted. */
  lemma {:induction false} ExactSlices(s: Sys, es: seq<Event>)
    requires SysInv(s) && LegalRun(s, es) && s.enabled && s.list != []
    requires forall k :: 0 <= k < |es| && Raises(es[k]) ==> es[k].Tick?
    ensures SwitchCount(s, es) == (s.tick + TickCount(es)) / 30
    decreases |es|
  {
    TickBound(s);
    if es != [] {
      var e := es[0];
      StepTick(s, e);
      StepSlice(s, e);
      StepKeeps(s, e);
      StepStaysBusy(s, e);
      ExactSlices(Step(s, e).0, es[1..]);
      SliceSum(s.tick, if e.Tick? then 1 else 0, TickCount(es[1..]));
    }
  }

  // ---------- first jumps to user mode ----------

  /** How many steps of the run jump into `t`. */
  ghost function EnterCount(s: Sys, es: seq<Event>, t: Thread): nat
    requires LegalRun(s, es)
    decreases |es|
  {
    if es == [] then 0
    else (if Step(s, es[0]).1 == EnterUser(t) then 1 else 0) + EnterCount(Step(s, es[0]).0, es[1..], t)
  }

  /** The event does not make `t` Started. */
  predicate NoRestart(e: Event, t: Thread)
  {
    e.Mark? && e.t == t ==> e.state != Started
  }

  predicate Fresh(i: Info)
  {
    i.state == Started
  }

  lemma SwitchEnters(s: Sys, esp: Word, t: Thread)
    requires CanSwitch(s, esp) && t in s.info
    ensures var (z, out) := Switch(s, esp);
            && t in z.info
            && (Fresh(z.info[t]) ==> Fresh(s.info[t]))
            && (out == EnterUser(t) ==> Fresh(s.info[t]) && !Fresh(z.info[t]))
  {
    SwitchLoads(s, esp);
    SwitchRow(s, esp, t);
  }

  /** Neither the event nor the countdown makes `t` Started, and a direct jump is into another thread. */
  lemma BaseFresh(s: Sys, e: Event, t: Thread)
    requires Names(s, e) && NoRestart(e, t) && t in s.info
    ensures var b := Base(s, e);
            && t in b.info && (Fresh(b.info[t]) ==> Fresh(s.info[t]))
            && t in Ticked(b).info && (Fresh(Ticked(b).info[t]) ==> Fresh(b.info[t]))
    ensures Jumps(e) ==> e.t != t
  {
  }

  lemma StepEnters(s: Sys, e: Event, t: Thread)
    requires SysInv(s) && Legal(s, e) && NoRestart(e, t) && t in s.info
    ensures var (z, out) := Step(s, e);
            && t in z.info
            && (Fresh(z.info[t]) ==> Fresh(s.info[t]))
            && (out == EnterUser(t) ==> Fresh(s.info[t]) && !Fresh(z.info[t]))
  {
    hide Step, Base, Switches, Raises, Direct, CanInterrupt, SysInv;
    BaseFresh(s, e, t);
    if Switches(s, e) {
      SwitchStep(s, e);
      SwitchEnters(Ticked(Base(s, e)).(tick := 0), EspOf(e), t);
    } else {
      QuietParts(s, e);
    }
  }

  /** A known thread is jumped into at most once, and only if it starts out as Started: from its jump on it
      is resumed where it was interrupted. */
  lemma {:induction false} EntersOnce(s: Sys, es: seq<Event>, t: Thread)
    requires SysInv(s) && LegalRun(s, es) && t in s.info
    requires forall k :: 0 <= k < |es| ==> NoRestart(es[k], t)
    ensures EnterCount(s, es, t) <= if s.info[t].state == Started then 1 else 0
    decreases |es|
  {
    if es != [] {
      assert NoRestart(es[0], t);
      StepEnters(s, es[0], t);
      StepKeeps(s, es[0]);
      EntersOnce(Step(s, es[0]).0, es[1..], t);
    }
  }

  // ---------- the page directory ----------

  /** The directory loaded after `e`: that of the thread that gets the processor, when it has one. */
  ghost function DirectoryAfter(s: Sys, e: Event, d: Word): Word
    requires Legal(s, e)
  {
    var (z, out) := Step(s, e);
    if !(Switches(s, e) || Jumps(e)) || z.current.None? || z.current.value !in z.info then d
    else
      match z.info[z.current.value].parent
      case None => d
      case Some(p) => if p.directory != 0 || out.EnterUser? then p.directory else d
  }

  ghost function LastDirectory(s: Sys, es: seq<Event>, d: Word): Word
    requires LegalRun(s, es)
    decreases |es|
  {
    if es == [] then d else LastDirectory(Step(s, es[0]).0, es[1..], DirectoryAfter(s, es[0], d))
  }

  lemma LegalNames(s: Sys, e: Event)
    requires Legal(s, e)
    ensures Names(s, e)
  {
  }

  lemma SwitchDirectory(s: Sys, e: Event)
    requires Legal(s, e) && Switches(s, e)
    ensures Step(s, e).0.cpu.directory == DirectoryAfter(s, e, s.cpu.directory)
  {
    hide Step, Base, Switches, Raises, CanInterrupt, Legal, Ticked, Names, Switch;
    LegalNames(s, e);
    BaseParts(s, e);
    SwitchStep(s, e);
    TickedParts(Base(s, e));
    var z := Ticked(Base(s, e)).(tick := 0);
    SwitchLoads(z, EspOf(e));
    SwitchRow(z, EspOf(e), Switch(z, EspOf(e)).0.current.value);
  }

  lemma QuietDirectory(s: Sys, e: Event)
    requires Legal(s, e) && !Switches(s, e)
    ensures Step(s, e).0.cpu.directory == DirectoryAfter(s, e, s.cpu.directory)
  {
  }

  lemma StepDirectory(s: Sys, e: Event)
    requires Legal(s, e)
    ensures Step(s, e).0.cpu.directory == DirectoryAfter(s, e, s.cpu.directory)
  {
    hide *;
    LegalNames(s, e);
    if Switches(s, e) { SwitchDirectory(s, e); } else { QuietDirectory(s, e); }
  }

  /** Over every run the page directory is that of the last thread that got the processor and brought one:
      threads without a process, or with directory 0, are resumed in the directory they find. */
  lemma {:induction false} RunDirectory(s: Sys, es: seq<Event>)
    requires LegalRun(s, es)
    ensures Exec(s, es).cpu.directory == LastDirectory(s, es, s.cpu.directory)
    decreases |es|
  {
    if es != [] {
      StepDirectory(s, es[0]);
      RunDirectory(Step(s, es[0]).0, es[1..]);
    }
  }
}
