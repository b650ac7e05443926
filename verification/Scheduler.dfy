/** The scheduler as it runs, over the pointer-based list of threads. */
module Scheduling {
  import opened Cycles
  import opened LinkedQueue
  import opened SchedulerSpec
  import opened SwitchLemmas
  import opened Threads
  import opened Words

  function OwnerOf(t: Thread): Option<Owner>
  {
    if t.parent == null then None else Some(Owner(t.parent.isUserspace, t.parent.pageDirPhys))
  }

  function InfoOf(t: Thread): Info
    reads t
  {
    Info(t.state, t.blockedState, t.timeDelta, t.regsPtr, t.stack, OwnerOf(t))
  }

  ghost predicate AllIn(list: seq<Thread>, known: set<Thread>)
  {
    forall k :: 0 <= k < |list| ==> list[k] in known
  }

  lemma AllInWithout(list: seq<Thread>, known: set<Thread>, drop: set<Thread>)
    requires AllIn(list, known)
    ensures AllIn(Without(list, drop), known)
  {
    forall k | 0 <= k < |Without(list, drop)| ensures Without(list, drop)[k] in known {
      WithoutMember(list, drop, Without(list, drop)[k]);
    }
  }

  ghost function TableOf(known: set<Thread>): Table
    reads known
  {
    map t | t in known :: InfoOf(t)
  }

  lemma TableAt(known: set<Thread>, t: Thread)
    requires t in TableOf(known)
    ensures TableOf(known)[t] == InfoOf(t)
  {
  }

  /** The scan reads the states from the threads themselves. */
  lemma AwakeStates(known: set<Thread>, r: seq<Thread>)
    requires Known(r, TableOf(known))
    ensures var a := FirstAwake(r, TableOf(known));
            && (a < |r| ==> r[a].state != Blocked)
            && (forall k :: 0 <= k < a ==> r[k].state == Blocked)
  {
    var a := FirstAwake(r, TableOf(known));
    if a < |r| {
      TableAt(known, r[a]);
    }
    forall k | 0 <= k < a ensures r[k].state == Blocked {
      TableAt(known, r[k]);
    }
  }

  lemma TableGrows(known: set<Thread>, t: Thread)
    ensures TableOf(known + {t}) == TableOf(known)[t := InfoOf(t)]
  {
  }

  lemma AppendIsSound(list: seq<Thread>, known: set<Thread>, t: Thread)
    requires Distinct(list) && AllIn(list, known) && t !in known
    ensures Distinct(list + [t]) && AllIn(list + [t], known + {t})
  {
  }

  lemma DirectIs(t: Thread)
    ensures Direct(InfoOf(t)) <==> t.parent != null && t.parent.isUserspace
    ensures InfoOf(t).parent.Some? <==> t.parent != null
  {
  }

  lemma InfoParts(t: Thread)
    ensures InfoOf(t).state == t.state && (InfoOf(t).parent.Some? <==> t.parent != null)
  {
  }

  lemma KnownRows(known: set<Thread>)
    ensures TableOf(known).Keys == known && forall t :: t in known ==> TableOf(known)[t] == InfoOf(t)
  {
  }

  /** Changing one thread changes one row. */
  lemma TableUpdate(known: set<Thread>, before: Table, t: Thread)
    requires before.Keys == known && t in known
    requires forall u :: u in known && u != t ==> InfoOf(u) == before[u]
    ensures TableOf(known) == before[t := InfoOf(t)]
  {
  }

  lemma UnblockedParts(s: Sys, t: Thread)
    requires t in s.info
    ensures Unblocked(s, t) == s.(info := s.info[t := s.info[t].(state := Ready)])
  {
  }

  lemma CountdownNext(list: seq<Thread>, info: Table, i: nat)
    requires Distinct(list) && i < |list| && list[i] in info
    ensures list[i] in Countdown(list[..i], info) && Countdown(list[..i], info)[list[i]] == info[list[i]]
    ensures Countdown(list[..i + 1], info) == Countdown(list[..i], info)[list[i] := CountedDown(info[list[i]])]
  {
    assert list[..i + 1] == list[..i] + [list[i]];
  }

  lemma CountdownAll(list: seq<Thread>, info: Table)
    ensures Countdown([], info) == info && list[..0] == [] && list[..|list|] == list
  {
  }

  lemma ScannedState(now: seq<Thread>, current: Option<Thread>, info: Table, known: set<Thread>)
    requires info == TableOf(known) && Known(now, info) && SomeAwake(now, info)
    ensures Scanned(now, current, info) in info
    ensures info[Scanned(now, current, info)].state == Scanned(now, current, info).state
  {
    CycleAwake(now, current, info);
  }

  function Ref(t: Thread?): Option<Thread>
  {
    if t == null then None else Some(t)
  }

  class Scheduler {
    const threadsList: Queue<Thread>
    var currentThread: Thread?
    var tickCount: Word
    var switchForced: bool
    var enabled: bool
    /** The processor: esp0 of its task segment and its page directory. */
    var esp0: Word
    var cr3: Word
    /** Every thread ever added. */
    ghost var known: set<Thread>

    /** The list is sound: no duplicates, and only threads that were added. */
    ghost predicate ListOk()
      reads `known, threadsList, threadsList.nodes
    {
      && threadsList.Valid() && Distinct(threadsList.Contents()) && AllIn(threadsList.Contents(), known)
    }

    ghost predicate Valid()
      reads this, threadsList, threadsList.nodes
    {
      && ListOk() && tickCount < SWITCH_TICKS
      && (currentThread != null ==> currentThread in threadsList.Contents())
    }

    ghost function Info(): Table
      reads `known, known
    {
      TableOf(known)
    }

    ghost function View(): Sys
      reads this, known, threadsList
    {
      Sys(threadsList.Contents(), Info(), Ref(currentThread), tickCount, switchForced, enabled, Cpu(esp0, cr3))
    }

    constructor ()
      ensures Valid() && known == {} && View() == Start()
      ensures threadsList.Contents() == [] && currentThread == null && tickCount == 0 && !switchForced && !enabled
    {
      threadsList := new Queue();
      currentThread, tickCount, switchForced, enabled := null, 0, false, false;
      esp0, cr3, known := 0, 0, {};
    }

    /** The place after `index`, wrapping round. */
    method After(index: int) returns (i: int)
      requires threadsList.Valid() && -1 <= index < |threadsList.Contents()| && threadsList.Contents() != []
      ensures i == if index + 1 < |threadsList.Contents()| then index + 1 else 0
    {
      hide Queue.Valid, Queue.Contents;
      i := index + 1;
      var n := threadsList.Size();
      if i >= n {
        i := 0;
      }
    }

    /** Where the scan starts from. */
    method Position() returns (index: int)
      requires threadsList.Valid() && threadsList.Contents() != []
      ensures index == IndexIn(threadsList.Contents(), Anchor(threadsList.Contents(), Ref(currentThread)))
    {
      hide Queue.Valid, Queue.Contents;
      index := 0;
      if currentThread != null {
        index := threadsList.IndexOf(currentThread);
      }
    }

    /** Step on from place `index`, the start of the reading `r`, to the first thread awake. */
    method SkipBlocked(start: int, ghost r: seq<Thread>, ghost a: nat) returns (next: Thread)
      requires threadsList.Valid() && 0 <= start < |threadsList.Contents()| == |r| && a < |r|
      requires r == Rotated(threadsList.Contents(), start - 1)
      requires r[a].state != Blocked && forall k :: 0 <= k < a ==> r[k].state == Blocked
      ensures next == r[a]
    {
      hide Queue.Valid, Queue.Contents, Rotated;
      ghost var list := threadsList.Contents();
      var index := start;
      ghost var k := 0;
      RotatedAt(list, start - 1, k);
      next := threadsList.GetAt(index);
      while next.state == Blocked
        invariant 0 <= k <= a && 0 <= index < |list|
        invariant index == if start + k < |list| then start + k else start + k - |list|
        invariant next == r[k]
        decreases a - k
      {
        index := After(index);
        k := k + 1;
        RotatedAt(list, start - 1, k);
        next := threadsList.GetAt(index);
      }
    }

    /** Scan cyclically from just after the current thread for one that is not blocked. */
    method GetNextReadyThread() returns (next: Thread)
      requires ListOk()
      requires Known(threadsList.Contents(), Info()) && SomeAwake(threadsList.Contents(), Info())
      ensures next == Scanned(threadsList.Contents(), Ref(currentThread), Info())
    {
      hide Queue.Valid, Queue.Contents;
      ghost var list := threadsList.Contents();
      ghost var r := Cycle(list, Ref(currentThread));
      CycleAwake(list, Ref(currentThread), Info());
      AwakeStates(known, r);
      RotatedWraps(list);
      var p := Position();
      var start := After(p);
      next := SkipBlocked(start, r, FirstAwake(r, Info()));
    }

    /** Take a thread off the list; its record is freed. */
    method Delete(t: Thread)
      requires ListOk()
      modifies threadsList, NodeSet(threadsList.nodes)
      ensures ListOk() && NodeSet(threadsList.nodes) <= NodeSet(old(threadsList.nodes))
      ensures threadsList.Contents() == Without(old(threadsList.Contents()), {t})
    {
      ghost var list := threadsList.Contents();
      threadsList.RemoveValue(t);
      DistinctNotAdjacent(list, t);
      RemoveIsWithout(list, t);
      WithoutDistinct(list, {t});
      AllInWithout(list, known, {t});
    }

    /** One turn of the reaping loop: delete `stopped`, scan again. */
    method ReapOne(stopped: Thread, ghost list: seq<Thread>, ghost gone: set<Thread>) returns (next: Thread)
      requires ListOk() && Known(threadsList.Contents(), Info()) && SomeRunnable(threadsList.Contents(), Info())
      requires Known(list, Info()) && SomeRunnable(list, Info())
      requires SomeAwake(threadsList.Contents(), Info())
      requires Reaping(list, Ref(currentThread), Info(), gone, threadsList.Contents())
      requires stopped == Scanned(threadsList.Contents(), Ref(currentThread), Info()) && stopped.state == Stopped
      modifies threadsList, NodeSet(threadsList.nodes)
      ensures ListOk() && NodeSet(threadsList.nodes) <= NodeSet(old(threadsList.nodes))
      ensures Known(threadsList.Contents(), Info()) && SomeRunnable(threadsList.Contents(), Info())
      ensures SomeAwake(threadsList.Contents(), Info())
      ensures Reaping(list, Ref(currentThread), Info(), gone + {stopped}, threadsList.Contents())
      ensures next == Scanned(threadsList.Contents(), Ref(currentThread), Info())
      ensures |threadsList.Contents()| < |old(threadsList.Contents())|
    {
      hide Queue.Valid, Queue.Contents, Cycle, Known, SomeRunnable, SomeAwake, Reaping, Scanned, Distinct, AllIn,
           TableOf, NodeSet;
      ghost var cur, info, now := Ref(currentThread), Info(), threadsList.Contents();
      ScannedState(now, cur, info, known);
      ReapTurn(list, cur, info, gone, now);
      Delete(stopped);
      next := GetNextReadyThread();
    }

    /** Choose the next thread, deleting the stopped ones found on the way. */
    method Reap() returns (next: Thread)
      requires ListOk() && Known(threadsList.Contents(), Info()) && SomeRunnable(threadsList.Contents(), Info())
      requires currentThread != null ==> currentThread in threadsList.Contents()
      modifies threadsList, NodeSet(threadsList.nodes)
      ensures ListOk() && NodeSet(threadsList.nodes) <= NodeSet(old(threadsList.nodes))
      ensures next == Next(old(threadsList.Contents()), Ref(currentThread), Info())
      ensures Known(Cycle(old(threadsList.Contents()), Ref(currentThread)), Info())
      ensures var list := old(threadsList.Contents());
              threadsList.Contents() == Without(list, Doomed(Cycle(list, Ref(currentThread)), Info()))
    {
      hide Queue.Valid, Queue.Contents, Known, SomeRunnable, SomeAwake, Reaping, Scanned, Next, Doomed, AllIn,
           TableOf, NodeSet;
      ghost var list, cur, info := threadsList.Contents(), Ref(currentThread), Info();
      ghost var gone: set<Thread> := {};
      RunnableAwake(list, info);
      ReapStart(list, cur, info);
      next := GetNextReadyThread();
      while next.state == Stopped
        invariant ListOk() && NodeSet(threadsList.nodes) <= NodeSet(old(threadsList.nodes))
        invariant Known(threadsList.Contents(), info) && SomeRunnable(threadsList.Contents(), info)
        invariant SomeAwake(threadsList.Contents(), info)
        invariant Reaping(list, cur, info, gone, threadsList.Contents())
        invariant next == Scanned(threadsList.Contents(), cur, info)
        decreases |threadsList.Contents()|
      {
        ghost var stopped := next;
        next := ReapOne(next, list, gone);
        gone := gone + {stopped};
      }
      ScannedState(threadsList.Contents(), cur, info, known);
      ReapEnd(list, cur, info, gone, threadsList.Contents());
    }

    method Wake(thread: Thread)
      modifies thread`state
      ensures thread.state == Ready && InfoOf(thread) == old(InfoOf(thread)).(state := Ready)
    {
      thread.state := Ready;
    }

    /** The body of the countdown loop. */
    method CountOne(thread: Thread)
      modifies thread
      ensures InfoOf(thread) == CountedDown(old(InfoOf(thread)))
      ensures var asleep := old(thread.state == Blocked && thread.blockedState == SleepMS && thread.timeDelta > 0);
              && thread.timeDelta == old(thread.timeDelta) - (if asleep then 1 else 0)
              && thread.state == (if asleep && thread.timeDelta == 0 then Ready else old(thread.state))
    {
      if thread.state == Blocked && thread.blockedState == SleepMS && thread.timeDelta > 0 {
        thread.timeDelta := thread.timeDelta - 1;
        if thread.timeDelta <= 0 {
          Wake(thread);
        }
      }
    }

    method ProcessSleepingThreads()
      requires ListOk()
      modifies known
      ensures ListOk() && Info() == Countdown(threadsList.Contents(), old(Info()))
    {
      hide Queue.Valid, Queue.Contents, TableOf;
      ghost var list, before := threadsList.Contents(), Info();
      var i := 0;
      var n := threadsList.Size();
      CountdownAll(list, before);
      while i < n
        invariant ListOk() && 0 <= i <= n
        invariant Info() == Countdown(list[..i], before)
      {
        var thread := threadsList.GetAt(i);
        ghost var info := Info();
        KnownRows(known);
        CountdownNext(list, before, i);
        CountOne(thread);
        TableUpdate(known, info, thread);
        i := i + 1;
      }
    }

    /** Leave the current thread: a stopped one is deleted, any other keeps its frame. */
    method Leave(esp: Word)
      requires ListOk() && (currentThread != null ==> currentThread in known)
      requires currentThread == null ==> esp < HEAP_START
      modifies threadsList, NodeSet(threadsList.nodes), currentThread
      ensures ListOk() && NodeSet(threadsList.nodes) <= NodeSet(old(threadsList.nodes))
      ensures threadsList.Contents() ==
              Without(old(threadsList.Contents()), Ended(Ref(currentThread), old(Info())))
      ensures Info() == Saved(Ref(currentThread), old(Info()), esp)
    {
      hide ListOk, Queue.Valid, Queue.Contents, TableOf;
      ghost var info := Info();
      KnownRows(known);
      WithoutNone(threadsList.Contents(), {});
      if currentThread != null && currentThread.state == Stopped {
        Delete(currentThread);
      } else if esp >= HEAP_START {
        currentThread.regsPtr := esp;
        TableUpdate(known, info, currentThread);
      }
    }

    /** The first jump of a thread into user mode; the kernel's frame is abandoned. */
    method InitialThreadUserJump(thread: Thread) returns (out: Outcome)
      requires thread.parent != null
      modifies `currentThread, `enabled, `esp0, `cr3
      ensures currentThread == thread && enabled && known == old(known)
      ensures esp0 == (thread.stack + 4096) % 0x1_0000_0000 && cr3 == thread.parent.pageDirPhys
      ensures tickCount == old(tickCount) && switchForced == old(switchForced)
      ensures out == EnterUser(thread)
    {
      esp0 := (thread.stack + THREAD_STACK_SIZE) % TWO32;
      cr3 := thread.parent.pageDirPhys;
      currentThread := thread;
      enabled := true;
      out := EnterUser(thread);
    }

    /** Enter the chosen thread. */
    method Enter(next: Thread) returns (out: Outcome)
      requires ListOk() && next in known && (next.state.Started? ==> next.parent != null)
      modifies `currentThread, `enabled, `esp0, `cr3, next
      ensures ListOk() && currentThread == next
      ensures tickCount == old(tickCount) && switchForced == old(switchForced)
      ensures var i := old(InfoOf(next));
              if EntersUser(i) then
                out == EnterUser(next) && enabled && InfoOf(next) == i.(state := Ready)
                && Cpu(esp0, cr3) == Cpu(StackTop(i.stack), i.parent.value.directory)
              else
                out == Resume(i.regs) && enabled == old(enabled) && InfoOf(next) == i
                && Cpu(esp0, cr3) == Loaded(Cpu(old(esp0), old(cr3)), i)
      ensures esp0 == (next.stack + 4096) % 0x1_0000_0000
      ensures var parent := next.parent;
              cr3 == if parent != null
                        && (parent.pageDirPhys != 0 || (old(next.state) == Started && parent.isUserspace))
                     then parent.pageDirPhys else old(cr3)
    {
      currentThread := next;
      if next.state == Started && next.parent.isUserspace {
        next.state := Ready;
        out := InitialThreadUserJump(next);
        return;
      }
      out := Resume(next.regsPtr);
      if next.parent != null && next.parent.pageDirPhys != 0 {
        cr3 := next.parent.pageDirPhys;
      }
      esp0 := (next.stack + THREAD_STACK_SIZE) % TWO32;
    }

    lemma ViewParts()
      ensures View().list == threadsList.Contents() && View().info == Info() && View().current == Ref(currentThread)
      ensures View().tick == tickCount && View().forced == switchForced && View().enabled == enabled
      ensures View().cpu == Cpu(esp0, cr3) && Ref(currentThread).Some? == (currentThread != null)
      ensures currentThread != null ==> Ref(currentThread) == Some(currentThread)
      ensures Info() == TableOf(known)
    {
    }

    lemma EnteredIs(s: Sys, i: Info, next: Thread, info: Table, out: Outcome)
      requires currentThread == next && tickCount == s.tick && switchForced == s.forced
      requires next in known && InfoOf(next) == (if EntersUser(i) then i.(state := Ready) else i)
      requires Info() == info[next := InfoOf(next)] && next in info && info[next] == i
      requires if EntersUser(i) then
                 out == EnterUser(next) && enabled && Cpu(esp0, cr3) == Cpu(StackTop(i.stack), i.parent.value.directory)
               else
                 out == Resume(i.regs) && enabled == s.enabled && Cpu(esp0, cr3) == Loaded(s.cpu, i)
      ensures Entered(s, i, next, info, View(), out)
    {
    }

    lemma ValidParts()
      requires Valid()
      ensures ListOk() && tickCount < SWITCH_TICKS == 30
      ensures threadsList.Valid() && Distinct(threadsList.Contents()) && AllIn(threadsList.Contents(), known)
      ensures currentThread != null ==> currentThread in threadsList.Contents()
    {
    }

    lemma ListIs()
      requires threadsList.Valid() && Distinct(threadsList.Contents()) && AllIn(threadsList.Contents(), known)
      ensures ListOk()
    {
    }

    lemma ValidIs()
      requires ListOk() && View().tick < SWITCH_TICKS
      requires View().current.Some? ==> View().current.value in View().list
      ensures Valid()
    {
    }

    /** What a switch knows on entry. */
    lemma Before(esp: Word)
      requires ListOk() && CanSwitch(View(), esp)
      ensures Known(threadsList.Contents(), Info()) && SomeRunnable(threadsList.Contents(), Info())
      ensures currentThread != null ==> currentThread in threadsList.Contents() && currentThread in known
      ensures currentThread == null ==> esp < HEAP_START
      ensures Known(Cycle(threadsList.Contents(), Ref(currentThread)), Info())
      ensures Dropped(View()) == Doomed(Cycle(threadsList.Contents(), Ref(currentThread)), Info())
                                 + Ended(Ref(currentThread), Info())
    {
      DroppedAre(View());
    }

    /** Choose the next thread and leave the current one. */
    method Vacate(esp: Word) returns (next: Thread)
      requires ListOk() && CanSwitch(View(), esp)
      modifies threadsList, NodeSet(threadsList.nodes), known
      ensures ListOk() && NodeSet(threadsList.nodes) <= NodeSet(old(threadsList.nodes))
      ensures next == Next(old(threadsList.Contents()), Ref(currentThread), old(Info()))
      ensures threadsList.Contents() == Without(old(threadsList.Contents()), Dropped(old(View())))
      ensures Info() == Saved(Ref(currentThread), old(Info()), esp)
    {
      hide *;
      ghost var list, cur, info := threadsList.Contents(), Ref(currentThread), Info();
      Before(esp);
      next := Reap();
      Leave(esp);
      WithoutTwice(list, Doomed(Cycle(list, cur), info), Ended(cur, info));
    }

    /** The switching part of an interrupt. */
    method SwitchThreads(esp: Word) returns (out: Outcome)
      requires ListOk() && CanSwitch(View(), esp)
      modifies `currentThread, `enabled, `esp0, `cr3, threadsList, NodeSet(threadsList.nodes), known
      ensures ListOk() && NodeSet(threadsList.nodes) <= NodeSet(old(threadsList.nodes))
      ensures (View(), out) == Switch(old(View()), esp)
    {
      hide *;
      ghost var s := View();
      NextInfo(s, esp);
      ViewParts();
      var next := Vacate(esp);
      ghost var info := Info();
      ViewParts();
      KnownRows(known);
      InfoParts(next);
      out := Enter(next);
      TableUpdate(known, info, next);
      ViewParts();
      EnteredIs(s, info[next], next, info, out);
      SwitchIs(s, esp, View(), out);
    }

    /** One timer interrupt taken at stack pointer `esp`. */
    method HandleInterrupt(esp: Word) returns (out: Outcome)
      requires Valid() && CanInterrupt(View(), esp)
      modifies this, threadsList, NodeSet(threadsList.nodes), known
      ensures Valid() && known == old(known) && NodeSet(threadsList.nodes) <= NodeSet(old(threadsList.nodes))
      ensures (View(), out) == Interrupt(old(View()), esp)
    {
      hide *;
      ghost var s := View();
      ValidParts();
      ViewParts();
      InterruptParts(s, esp);
      tickCount := tickCount + 1;
      if !switchForced {
        ProcessSleepingThreads();
      } else {
        switchForced := false;
      }
      out := Resume(esp);
      if tickCount == SWITCH_TICKS {
        tickCount := 0;
        var n := threadsList.Size();
        if n > 0 && enabled {
          ViewParts();
          assert View() == Ticked(s).(tick := 0);
          out := SwitchThreads(esp);
        }
      }
      ViewParts();
      ValidIs();
    }

    /** Make the very next interrupt switch, and raise it; `esp` is where it finds the stack. */
    method ForceSwitch(esp: Word) returns (out: Outcome)
      requires Valid() && CanInterrupt(Forcing(View()), esp)
      modifies this, threadsList, NodeSet(threadsList.nodes), known
      ensures Valid() && known == old(known) && NodeSet(threadsList.nodes) <= NodeSet(old(threadsList.nodes))
      ensures (View(), out) == Interrupt(Forcing(old(View())), esp)
    {
      hide *;
      ValidParts();
      ViewParts();
      ForcingParts(View());
      switchForced := true;
      enabled := true;
      tickCount := SWITCH_TICKS - 1;
      ViewParts();
      ValidIs();
      out := HandleInterrupt(esp);
    }

    method Unblock(thread: Thread, forceSwitch: bool, esp: Word) returns (out: Outcome)
      requires Valid() && thread in known
      requires forceSwitch ==> CanInterrupt(Forcing(Unblocked(View(), thread)), esp)
      modifies this, threadsList, NodeSet(threadsList.nodes), known
      ensures Valid() && known == old(known) && NodeSet(threadsList.nodes) <= NodeSet(old(threadsList.nodes))
      ensures (View(), out) == if forceSwitch then Interrupt(Forcing(Unblocked(old(View()), thread)), esp)
                               else (Unblocked(old(View()), thread), Quiet)
      ensures !forceSwitch ==> thread.state == Ready
    {
      hide *;
      ghost var s := View();
      ValidParts();
      ViewParts();
      KnownRows(known);
      UnblockedParts(s, thread);
      Wake(thread);
      TableUpdate(known, s.info, thread);
      ListIs();
      ViewParts();
      ValidIs();
      out := Quiet;
      if forceSwitch {
        out := ForceSwitch(esp);
      }
    }

    /** Put a new thread at the end of the list. */
    method Append(thread: Thread)
      requires Valid() && thread !in known
      modifies `known, threadsList, NodeSet(threadsList.nodes)
      ensures Valid() && known == old(known) + {thread}
      ensures fresh(NodeSet(threadsList.nodes) - NodeSet(old(threadsList.nodes)))
      ensures View() == Added(old(View()), thread, InfoOf(thread))
    {
      hide *;
      ghost var s := View();
      ghost var list := threadsList.Contents();
      ValidParts();
      ViewParts();
      AppendIsSound(list, known, thread);
      AddedParts(s, thread, InfoOf(thread));
      TableGrows(known, thread);
      threadsList.PushBack(thread);
      known := known + {thread};
      ViewParts();
      ListIs();
      ValidIs();
    }

    /** The jump, seen as a step of the whole system. */
    method Jumped(thread: Thread) returns (out: Outcome)
      requires Valid() && thread in threadsList.Contents() && thread.parent != null
      requires thread in View().info && View().info[thread].parent.Some?
      modifies `currentThread, `enabled, `esp0, `cr3
      ensures Valid() && (View(), out) == Jump(old(View()), thread)
    {
      out := InitialThreadUserJump(thread);
    }

    method AddThread(thread: Thread, forceSwitch: bool, esp: Word) returns (out: Outcome)
      requires Valid() && thread !in known
      requires forceSwitch && !Direct(InfoOf(thread)) ==>
                 CanInterrupt(Forcing(Added(View(), thread, InfoOf(thread))), esp)
      modifies this, threadsList, NodeSet(threadsList.nodes), known, thread
      ensures Valid() && known == old(known) + {thread}
      ensures fresh(NodeSet(threadsList.nodes) - NodeSet(old(threadsList.nodes)))
      ensures (View(), out) == AddStep(old(View()), thread, old(InfoOf(thread)), forceSwitch, esp)
    {
      hide *;
      ghost var s, i := View(), InfoOf(thread);
      DirectIs(thread);
      AddStepIs(s, thread, i, forceSwitch, esp);
      Append(thread);
      ViewParts();
      out := Quiet;
      if forceSwitch {
        if thread.parent != null && thread.parent.isUserspace {
          out := Jumped(thread);
          return;
        }
        out := ForceSwitch(esp);
      }
    }
  }
}
