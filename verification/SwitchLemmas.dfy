/** The reaping loop step by step, and what a whole switch amounts to. */
module SwitchLemmas {
  import opened Cycles
  import opened LinkedQueue
  import opened SchedulerSpec
  import opened Threads
  import opened Words

  lemma {:induction false} DoomedAre(r: seq<Thread>, info: Table, t: Thread)
    requires Known(r, info)
    ensures t in Doomed(r, info) <==>
            exists k :: 0 <= k < FirstRunnable(r, info) && r[k] == t && info[t].state.Stopped?
  {
    if r != [] && !Runnable(info[r[0]]) {
      DoomedAre(r[1..], info, t);
      if t in Doomed(r[1..], info) {
        var k :| 0 <= k < FirstRunnable(r[1..], info) && r[1..][k] == t && info[t].state.Stopped?;
        assert r[k + 1] == t;
      }
      if k :| 0 <= k < FirstRunnable(r, info) && r[k] == t && info[t].state.Stopped? {
        assert k > 0 ==> r[1..][k - 1] == t;
      }
    }
  }

  lemma {:induction false} KnownWithout(r: seq<Thread>, info: Table, drop: set<Thread>)
    requires Known(r, info)
    ensures Known(Without(r, drop), info)
  {
    if r != [] {
      KnownWithout(r[1..], info, drop);
    }
  }

  lemma FirstRunnableStep(r: seq<Thread>, info: Table)
    requires Known(r, info) && r != []
    ensures Known(r[1..], info)
    ensures FirstRunnable(r, info) == if Runnable(info[r[0]]) then 0 else 1 + FirstRunnable(r[1..], info)
  {
  }

  lemma FirstAwakeStep(r: seq<Thread>, info: Table)
    requires Known(r, info) && r != []
    ensures Known(r[1..], info)
    ensures FirstAwake(r, info) == if !info[r[0]].state.Blocked? then 0 else 1 + FirstAwake(r[1..], info)
  {
  }

  lemma WithoutStep<T>(s: seq<T>, drop: set<T>)
    requires s != []
    ensures s[0] in drop ==> Without(s, drop) == Without(s[1..], drop)
    ensures s[0] !in drop ==>
      var r := Without(s, drop);
      r != [] && r == [s[0]] + Without(s[1..], drop) && r[0] == s[0] && r[1..] == Without(s[1..], drop)
  {
  }

  lemma DistinctStep<T>(s: seq<T>)
    requires Distinct(s) && s != []
    ensures Distinct(s[1..]) && forall k :: 1 <= k < |s| ==> s[k] != s[0]
  {
  }

  /** Deleting the first thread that is not blocked, if stopped, keeps the eventual choice... */
  lemma {:induction false} DropFirst(r: seq<Thread>, info: Table, r': seq<Thread>)
    requires Distinct(r) && Known(r, info) && FirstRunnable(r, info) < |r|
    requires FirstAwake(r, info) < |r| && info[r[FirstAwake(r, info)]].state.Stopped?
    requires r' == Without(r, {r[FirstAwake(r, info)]}) && Known(r', info)
    ensures FirstRunnable(r', info) < |r'| && r'[FirstRunnable(r', info)] == r[FirstRunnable(r, info)]
    ensures r[FirstAwake(r, info)] != r[|r| - 1]
  {
    hide FirstRunnable, FirstAwake, Without, Distinct;
    var x := r[FirstAwake(r, info)];
    var rest := r[1..];
    FirstRunnableStep(r, info);
    FirstAwakeStep(r, info);
    DistinctStep(r);
    WithoutStep(r, {x});
    if info[r[0]].state.Blocked? {
      KnownWithout(rest, info, {x});
      DropFirst(rest, info, Without(rest, {x}));
      FirstRunnableStep(r', info);
    } else {
      WithoutNone(rest, {x});
    }
  }

  /** ...and takes just that thread off the doomed ones. */
  lemma {:induction false} DropFirstDoomed(r: seq<Thread>, info: Table, r': seq<Thread>)
    requires Distinct(r) && Known(r, info)
    requires FirstAwake(r, info) < |r| && info[r[FirstAwake(r, info)]].state.Stopped?
    requires r' == Without(r, {r[FirstAwake(r, info)]}) && Known(r', info)
    ensures r[FirstAwake(r, info)] in Doomed(r, info)
    ensures Doomed(r', info) == Doomed(r, info) - {r[FirstAwake(r, info)]}
  {
    var x := r[FirstAwake(r, info)];
    var rest := r[1..];
    var rest' := Without(rest, {x});
    if x == r[0] {
      WithoutNone(rest, {x});
      DoomedAre(rest, info, x);
    } else {
      KnownWithout(rest, info, {x});
      DropFirstDoomed(rest, info, rest');
      assert r' == [r[0]] + rest' && r'[1..] == rest';
    }
  }

  lemma {:induction false} WithoutShorter<T>(s: seq<T>, x: T)
    requires x in s
    ensures |Without(s, {x})| < |s|
  {
    if s[0] == x {
      WithoutLength(s[1..], {x});
    } else {
      WithoutShorter(s[1..], x);
    }
  }

  lemma ReapedList(list: seq<Thread>, info: Table, x: Thread)
    requires Distinct(list) && Known(list, info)
    ensures Distinct(Without(list, {x})) && Known(Without(list, {x}), info)
    ensures x in list ==> |Without(list, {x})| < |list|
    ensures forall t :: t in list && t != x ==> t in Without(list, {x})
  {
    var list' := Without(list, {x});
    WithoutDistinct(list, {x});
    if x in list {
      WithoutShorter(list, x);
    }
    KnownWithout(list, info, {x});
    forall t | t in list && t != x ensures t in list' {
      WithoutMember(list, {x}, t);
    }
  }

  lemma ReapedCycle(list: seq<Thread>, current: Option<Thread>, x: Thread)
    requires list != [] && Anchor(list, current) in list && x != Anchor(list, current)
    ensures Without(list, {x}) != [] && Cycle(Without(list, {x}), current) == Without(Cycle(list, current), {x})
  {
    RotatedWithout(list, Anchor(list, current), {x});
  }

  /** One turn of the reaping loop. */
  lemma ReapStep(list: seq<Thread>, current: Option<Thread>, info: Table)
    requires Distinct(list) && Known(list, info) && SomeRunnable(list, info)
    requires current.Some? ==> current.value in list
    requires var r := Cycle(list, current);
             Known(r, info) && FirstAwake(r, info) < |r| && info[r[FirstAwake(r, info)]].state.Stopped?
    ensures var r := Cycle(list, current);
            var x := r[FirstAwake(r, info)];
            var list' := Without(list, {x});
            && Distinct(list') && Known(list', info) && SomeRunnable(list', info) && |list'| < |list|
            && (current.Some? ==> current.value in list')
            && Known(Cycle(list', current), info)
            && Next(list', current, info) == Next(list, current, info)
            && x in Doomed(r, info) && Doomed(Cycle(list', current), info) == Doomed(r, info) - {x}
  {
    var r := Cycle(list, current);
    var p := IndexIn(list, Anchor(list, current));
    RunnableAwake(list, info);
    CycleRunnable(list, current, info);
    var x := r[FirstAwake(r, info)];
    RotatedDistinct(list, p);
    KnownWithout(r, info, {x});
    DropFirst(r, info, Without(r, {x}));
    DropFirstDoomed(r, info, Without(r, {x}));
    RotatedAt(list, p, |list| - 1);
    ReapedCycle(list, current, x);
    CycleMember(list, current, x);
    ReapedList(list, info, x);
    var next := Next(list, current, info);
    var k :| 0 <= k < |Without(list, {x})| && Without(list, {x})[k] == next;
  }

  /** The loop ends at the first runnable thread, with nothing doomed any more. */
  lemma {:induction false} ReapDone(r: seq<Thread>, info: Table)
    requires Known(r, info) && FirstAwake(r, info) < |r| && !info[r[FirstAwake(r, info)]].state.Stopped?
    ensures FirstRunnable(r, info) == FirstAwake(r, info) && Doomed(r, info) == {}
  {
    if r[0..FirstAwake(r, info)] != [] {
      assert r[1..][FirstAwake(r[1..], info)] == r[FirstAwake(r, info)];
      ReapDone(r[1..], info);
    }
  }

  // ---------- the reaping loop ----------

  /** The thread the scan stops at. */
  ghost function Scanned(list: seq<Thread>, current: Option<Thread>, info: Table): Thread
    requires Known(list, info) && SomeAwake(list, info)
  {
    CycleAwake(list, current, info);
    var r := Cycle(list, current);
    r[FirstAwake(r, info)]
  }

  /** With no runnable thread the loop only ever finds stopped ones, and deleting them makes none
      runnable: it cannot end before it has no thread awake to find. */
  lemma NoneRunnable(list: seq<Thread>, current: Option<Thread>, info: Table)
    requires Known(list, info) && SomeAwake(list, info) && !SomeRunnable(list, info)
    ensures Scanned(list, current, info) in list && info[Scanned(list, current, info)].state.Stopped?
    ensures var left := Without(list, {Scanned(list, current, info)});
            |left| < |list| && Known(left, info) && !SomeRunnable(left, info)
  {
    CycleAwake(list, current, info);
    var x := Scanned(list, current, info);
    CycleMember(list, current, x);
    KnownWithout(list, info, {x});
    WithoutShorter(list, x);
    var left := Without(list, {x});
    forall k | 0 <= k < |left| ensures !Runnable(info[left[k]]) {
      WithoutMember(list, {x}, left[k]);
    }
  }

  /** After some turns: `gone` was deleted from `list` and `now` is left. */
  ghost predicate Reaping(list: seq<Thread>, current: Option<Thread>, info: Table, gone: set<Thread>,
                          now: seq<Thread>)
    requires Known(list, info) && SomeRunnable(list, info)
  {
    && now == Without(list, gone) && Distinct(now) && Known(now, info) && SomeRunnable(now, info)
    && SomeAwake(now, info)
    && (current.Some? ==> current.value in now)
    && Known(Cycle(list, current), info) && Known(Cycle(now, current), info)
    && gone <= Doomed(Cycle(list, current), info)
    && Doomed(Cycle(now, current), info) == Doomed(Cycle(list, current), info) - gone
    && Next(now, current, info) == Next(list, current, info)
  }

  lemma ReapStart(list: seq<Thread>, current: Option<Thread>, info: Table)
    requires Distinct(list) && Known(list, info) && SomeRunnable(list, info)
    requires current.Some? ==> current.value in list
    ensures Reaping(list, current, info, {}, list)
  {
    RunnableAwake(list, info);
    WithoutNone(list, {});
    CycleKnown(list, current, info);
  }

  lemma ReapTurn(list: seq<Thread>, current: Option<Thread>, info: Table, gone: set<Thread>, now: seq<Thread>)
    requires Known(list, info) && SomeRunnable(list, info) && Reaping(list, current, info, gone, now)
    requires info[Scanned(now, current, info)].state.Stopped?
    ensures var x := Scanned(now, current, info);
            && Reaping(list, current, info, gone + {x}, Without(now, {x}))
            && Known(Without(now, {x}), info) && SomeRunnable(Without(now, {x}), info)
            && SomeAwake(Without(now, {x}), info)
            && |Without(now, {x})| < |now|
  {
    hide Cycle, Next, Doomed, Distinct, SomeRunnable, SomeAwake, FirstAwake;
    RunnableAwake(now, info);
    CycleAwake(now, current, info);
    ReapStep(now, current, info);
    RunnableAwake(Without(now, {Scanned(now, current, info)}), info);
    WithoutTwice(list, gone, {Scanned(now, current, info)});
  }

  lemma ReapEnd(list: seq<Thread>, current: Option<Thread>, info: Table, gone: set<Thread>, now: seq<Thread>)
    requires Known(list, info) && SomeRunnable(list, info) && Reaping(list, current, info, gone, now)
    requires !info[Scanned(now, current, info)].state.Stopped?
    ensures Scanned(now, current, info) == Next(list, current, info) && Known(Cycle(list, current), info)
    ensures now == Without(list, Doomed(Cycle(list, current), info))
  {
    CycleAwake(now, current, info);
    var r, all := Cycle(now, current), Doomed(Cycle(list, current), info);
    ReapDone(r, info);
    assert Next(now, current, info) == r[FirstRunnable(r, info)];
    assert all - gone == {};
    assert gone == all by {
      assert forall t :: t in all ==> t !in all - gone ==> t in gone;
    }
  }

  lemma DroppedAre(s: Sys)
    requires Known(s.list, s.info) && s.list != []
    ensures Known(Cycle(s.list, s.current), s.info)
    ensures Dropped(s) == Doomed(Cycle(s.list, s.current), s.info) + Ended(s.current, s.info)
  {
    CycleKnown(s.list, s.current, s.info);
  }

  lemma {:induction false} RunnableBefore(r: seq<Thread>, info: Table, d: nat)
    requires Known(r, info) && d < |r| && Runnable(info[r[d]])
    ensures FirstRunnable(r, info) <= d
  {
    if d > 0 && !Runnable(info[r[0]]) {
      RunnableBefore(r[1..], info, d - 1);
    }
  }

  lemma NextIs(list: seq<Thread>, current: Option<Thread>, info: Table)
    requires Known(list, info) && SomeRunnable(list, info)
    ensures list != [] && Known(Cycle(list, current), info)
    ensures FirstRunnable(Cycle(list, current), info) < |Cycle(list, current)|
    ensures Next(list, current, info) == Cycle(list, current)[FirstRunnable(Cycle(list, current), info)]
  {
    RunnableAwake(list, info);
    CycleRunnable(list, current, info);
  }

  /** The choice is the first runnable thread in cyclic order. */
  lemma NextIsFirst(list: seq<Thread>, current: Option<Thread>, info: Table, u: Thread)
    requires Known(list, info) && SomeRunnable(list, info) && list != []
    requires u in list && u in info && Runnable(info[u])
    ensures Next(list, current, info) in list && Next(list, current, info) in info
    ensures Runnable(info[Next(list, current, info)])
    ensures 0 <= IndexIn(Cycle(list, current), Next(list, current, info)) <= IndexIn(Cycle(list, current), u)
  {
    hide *;
    NextIs(list, current, info);
    CycleMember(list, current, u);
    RunnableBefore(Cycle(list, current), info, IndexIn(Cycle(list, current), u));
  }

  lemma {:induction false} DoomedStopped(r: seq<Thread>, info: Table, t: Thread)
    requires Known(r, info) && t in info && !info[t].state.Stopped?
    ensures t !in Doomed(r, info)
  {
    if r != [] && !Runnable(info[r[0]]) {
      DoomedStopped(r[1..], info, t);
    }
  }

  /** Only stopped threads leave the list. */
  lemma Spared(s: Sys, t: Thread)
    requires Known(s.list, s.info) && s.list != [] && t in s.list && t in s.info && !s.info[t].state.Stopped?
    ensures t !in Dropped(s) && t in Without(s.list, Dropped(s))
  {
    DroppedAre(s);
    DoomedStopped(Cycle(s.list, s.current), s.info, t);
    WithoutMember(s.list, Dropped(s), t);
  }

  /** The chosen thread survives its own switch. */
  lemma SwitchStays(s: Sys, esp: Word)
    requires CanSwitch(s, esp)
    ensures Next(s.list, s.current, s.info) in Without(s.list, Dropped(s))
  {
    Spared(s, Next(s.list, s.current, s.info));
  }

  lemma SwitchParts(s: Sys, esp: Word)
    requires CanSwitch(s, esp)
    ensures var s' := Switch(s, esp).0;
            && s.list != [] && Known(s.list, s.info) && SomeRunnable(s.list, s.info) && Distinct(s.list)
            && (s.current.Some? ==> s.current.value in s.list)
            && s'.list == Without(s.list, Dropped(s))
            && s'.current == Some(Next(s.list, s.current, s.info))
  {
  }

  /** A switch leaves the rows alone but for saved frames and a first start. */
  lemma SwitchRow(s: Sys, esp: Word, t: Thread)
    requires CanSwitch(s, esp) && t in s.info
    ensures t in Switch(s, esp).0.info
    ensures var i, j := s.info[t], Switch(s, esp).0.info[t];
            && j.delta == i.delta && j.reason == i.reason && j.stack == i.stack && j.parent == i.parent
            && (j.state == i.state || (i.state == Started && j.state == Ready))
  {
  }

  /** What a switch does, thread by thread: the first runnable one in cyclic order after the current
      one becomes current, and exactly the stopped ones passed over on the way, and a stopped
      current one, leave the list. */
  lemma SwitchPicks(s: Sys, esp: Word, t: Thread)
    requires CanSwitch(s, esp) && t in s.list
    ensures Known(Cycle(s.list, s.current), s.info)
    ensures var r := Cycle(s.list, s.current);
            var w := FirstRunnable(r, s.info);
            var s' := Switch(s, esp).0;
            && w < |r| && s'.current == Some(r[w]) && Runnable(s.info[r[w]]) && r[w] in s'.list
            && (forall k :: 0 <= k < w ==> !Runnable(s.info[r[k]]))
            && (t in s'.list <==>
                !(s.info[t].state.Stopped? && (s.current == Some(t) || exists k :: 0 <= k < w && r[k] == t)))
  {
    RunnableAwake(s.list, s.info);
    CycleRunnable(s.list, s.current, s.info);
    var r := Cycle(s.list, s.current);
    SwitchStays(s, esp);
    DroppedAre(s);
    DoomedAre(r, s.info, t);
    WithoutMember(s.list, Dropped(s), t);
  }

  /** The threads that stay keep their order. */
  lemma SwitchOrders(s: Sys, esp: Word, t: Thread, u: Thread)
    requires CanSwitch(s, esp) && t in Switch(s, esp).0.list && u in Switch(s, esp).0.list
    requires IndexIn(s.list, t) < IndexIn(s.list, u)
    ensures 0 <= IndexIn(Switch(s, esp).0.list, t) < IndexIn(Switch(s, esp).0.list, u)
  {
    WithoutMember(s.list, Dropped(s), t);
    WithoutMember(s.list, Dropped(s), u);
    WithoutOrder(s.list, Dropped(s), t, u);
  }

  /** What entering `next`, known as `i`, does to the rest of the state. */
  ghost predicate Entered(s: Sys, i: Info, next: Thread, info: Table, s': Sys, out: Outcome)
  {
    && s'.current == Some(next) && s'.tick == s.tick && s'.forced == s.forced
    && if EntersUser(i) then
         out == EnterUser(next) && s'.enabled && s'.info == info[next := i.(state := Ready)]
         && s'.cpu == Cpu(StackTop(i.stack), i.parent.value.directory)
       else
         out == Resume(i.regs) && s'.enabled == s.enabled && s'.info == info && s'.cpu == Loaded(s.cpu, i)
  }

  lemma SwitchIs(s: Sys, esp: Word, s': Sys, out: Outcome)
    requires CanSwitch(s, esp) && s'.list == Without(s.list, Dropped(s))
    requires var next := Next(s.list, s.current, s.info);
             var info := Saved(s.current, s.info, esp);
             Entered(s, info[next], next, info, s', out)
    ensures (s', out) == Switch(s, esp)
  {
  }

  lemma NextInfo(s: Sys, esp: Word)
    requires CanSwitch(s, esp)
    ensures var next := Next(s.list, s.current, s.info);
            var info := Saved(s.current, s.info, esp);
            && next in s.info && next in info && info.Keys == s.info.Keys
            && (info[next].state.Started? ==> info[next].parent.Some?)
            && SomeRunnable(s.list, s.info) && Known(s.list, s.info)
  {
    var next := Next(s.list, s.current, s.info);
    var k :| 0 <= k < |s.list| && s.list[k] == next;
  }

  lemma InterruptParts(s: Sys, esp: Word)
    requires CanInterrupt(s, esp) && s.tick < SWITCH_TICKS
    ensures var s' := Ticked(s);
            && s'.list == s.list && s'.current == s.current && s'.enabled == s.enabled && s'.cpu == s.cpu
            && s'.tick == s.tick + 1 && !s'.forced
            && s'.info == (if s.forced then s.info else Countdown(s.list, s.info))
            && (if s.tick + 1 == SWITCH_TICKS && |s.list| > 0 && s.enabled then
                  CanSwitch(s'.(tick := 0), esp) && Interrupt(s, esp) == Switch(s'.(tick := 0), esp)
                  && Switch(s'.(tick := 0), esp).0.tick == 0
                  && Switch(s'.(tick := 0), esp).0.current.Some?
                  && Switch(s'.(tick := 0), esp).0.current.value in Switch(s'.(tick := 0), esp).0.list
                else
                  Interrupt(s, esp) == (if s.tick + 1 == SWITCH_TICKS then s'.(tick := 0) else s', Resume(esp)))
  {
    if Due(s) {
      SwitchStays(Ticked(s).(tick := 0), esp);
    }
  }

  lemma AddStepIs(s: Sys, t: Thread, i: Info, force: bool, esp: Word)
    requires force && !Direct(i) ==> CanInterrupt(Forcing(Added(s, t, i)), esp)
    ensures var s' := Added(s, t, i);
            && t in s'.list && t in s'.info && s'.info[t] == i
            && (!force ==> AddStep(s, t, i, force, esp) == (s', Quiet))
            && (force && Direct(i) ==> i.parent.Some? && AddStep(s, t, i, force, esp) == Jump(s', t))
            && (force && !Direct(i) ==> AddStep(s, t, i, force, esp) == Interrupt(Forcing(s'), esp))
  {
    assert s.list + [t] == (s.list + [t])[..|s.list|] + [t];
    assert (s.list + [t])[|s.list|] == t;
  }

  lemma ForcingParts(s: Sys)
    ensures Forcing(s) == s.(forced := true, enabled := true, tick := SWITCH_TICKS - 1)
  {
  }

  lemma AddedParts(s: Sys, t: Thread, i: Info)
    ensures Added(s, t, i) == s.(list := s.list + [t], info := s.info[t := i])
  {
  }
}
