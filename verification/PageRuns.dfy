/** What every run of the page-table calls keeps, interleaved with writes to ordinary memory. */
module PageRuns {
  import opened FrameSpec
  import opened HeapMemory
  import opened PageRights
  import opened PageSpec
  import opened PageWalk
  import opened Words

  datatype PageCall =
    | Map(i: int, j: int, g: Frame, kernel: bool, writeable: bool)
    | Open(i: int, readWrite: bool, user: bool)
    | Back(i: int, j: int, kernel: bool, writeable: bool)
    | Write(f: int, j: int, e: Entry)

  /** `MapVirtualToPhysical`, `GetPageForAddress` and `AllocatePage` on slots without 4 MB pages, a table
      that has to be made having a frame to itself; and a write to a frame that holds no table. */
  ghost predicate Guard(vm: Vm, c: PageCall)
    requires Walkable(vm)
  {
    match c
    case Map(i, j, _, _, _) => Slot(i) && Index(j) && Mappable(vm, i) && TableToSpare(vm, i)
    case Open(i, _, _) => Slot(i) && Mappable(vm, i) && TableToSpare(vm, i)
    case Back(i, j, _, _) => Slot(i) && Index(j) && Small(vm.mem, vm.dir, i)
    case Write(f, j, _) => 0 <= f < |vm.mem| && Index(j) && NoTable(vm.mem, vm.dir, f)
  }

  lemma GuardParts(vm: Vm, c: PageCall)
    requires Editable(vm) && Walkable(vm) && Guard(vm, c)
    ensures Sized(vm.frames) && NextFrame(vm.frames) < |vm.mem|
    ensures c.Map? ==> (vm.mem[vm.dir][c.i].present ==> vm.mem[vm.dir][c.i].frame < |vm.mem|)
    ensures c.Back? ==> var t := vm.mem[vm.dir][c.i].frame; 0 <= t < |vm.mem| && c.j < |vm.mem[t]|
    ensures c.Write? ==> c.j < |vm.mem[c.f]|
  {
    EditableParts(vm);
  }

  ghost function Apply(vm: Vm, c: PageCall): Vm
    requires Editable(vm) && Walkable(vm) && Guard(vm, c)
  {
    GuardParts(vm, c);
    match c
    case Map(i, j, g, kernel, writeable) => Mapped(vm, i, j, g, kernel, writeable)
    case Open(i, readWrite, user) => WithTable(vm, i, readWrite, user)
    case Back(i, j, kernel, writeable) => PageGiven(vm, vm.mem[vm.dir][i].frame, j, kernel, writeable)
    case Write(f, j, e) => vm.(mem := Put(vm.mem, f, j, e))
  }

  ghost predicate Step(vm: Vm, c: PageCall, v: Vm)
  {
    Editable(vm) && Walkable(vm) && Guard(vm, c) && v == Apply(vm, c)
  }

  ghost predicate Run(vms: seq<Vm>, cs: seq<PageCall>)
  {
    |vms| == |cs| + 1 && forall k | 0 <= k < |cs| :: Step(vms[k], cs[k], vms[k + 1])
  }

  /** What a call does to what the hardware grants on page `j` of slot `i`. */
  ghost function Translated(vm: Vm, c: PageCall, i: int, j: int, before: Option<Access>): Option<Access>
    requires Sized(vm.frames) && Walkable(vm) && Slot(i)
  {
    match c
    case Map(i2, j2, g, kernel, writeable) =>
      if i2 == i && j2 == j then Some(Granted(vm, i, g, kernel, writeable)) else before
    case Back(i2, j2, kernel, writeable) =>
      if i2 == i && j2 == j && AllocatedAddr(vm.frames) != 0 then
        Some(Granted(vm, i, NextFrame(vm.frames), kernel, writeable))
      else before
    case _ => before
  }

  /** A frame in use stays in use. */
  predicate BitsKept(s: Frames, t: Frames)
  {
    |t.bits| == |s.bits| && forall f | 0 <= f < |s.bits| && s.bits[f] :: t.bits[f]
  }

  // ---------- one call at a time ----------

  lemma AddressOfNext(vm: Vm)
    requires VmInv(vm)
    ensures AllocatedAddr(vm.frames) == 0 <==> !Allocates(vm.frames)
    ensures !Allocates(vm.frames) ==> Allocated(vm.frames) == vm.frames
  {
    NextFrameFresh(vm);
  }

  lemma BackStep(vm: Vm, i: int, j: int, kernel: bool, writeable: bool, i2: int, j2: int)
    requires VmInv(vm) && Slot(i) && Index(j) && Small(vm.mem, vm.dir, i) && Slot(i2) && Index(j2)
    ensures Sized(vm.frames) && vm.mem[vm.dir][i].frame < |vm.mem|
    ensures var v := PageGiven(vm, vm.mem[vm.dir][i].frame, j, kernel, writeable);
      && VmInv(v) && v.dir == vm.dir && BitsKept(vm.frames, v.frames)
      && AccessPage(v.mem, v.dir, i2, j2)
         == Translated(vm, Back(i, j, kernel, writeable), i2, j2, AccessPage(vm.mem, vm.dir, i2, j2))
  {
    NextFrameFresh(vm);
    AddressOfNext(vm);
    if Allocates(vm.frames) {
      GivenInv(vm, i, j, kernel, writeable);
      GivenAccess(vm, i, j, kernel, writeable, i2, j2);
    }
  }

  lemma OpenStep(vm: Vm, i: int, readWrite: bool, user: bool, i2: int, j2: int)
    requires VmInv(vm) && Slot(i) && Mappable(vm, i) && TableToSpare(vm, i) && Slot(i2) && Index(j2)
    ensures NextFrame(vm.frames) < |vm.mem|
    ensures var v := WithTable(vm, i, readWrite, user);
      && VmInv(v) && v.dir == vm.dir && BitsKept(vm.frames, v.frames)
      && AccessPage(v.mem, v.dir, i2, j2) == AccessPage(vm.mem, vm.dir, i2, j2)
  {
    WithTableInv(vm, i, readWrite, user);
    OpenAccess(vm, i, readWrite, user, i2, j2);
  }

  lemma MapStep(vm: Vm, i: int, j: int, g: Frame, kernel: bool, writeable: bool, i2: int, j2: int)
    requires VmInv(vm) && Slot(i) && Index(j) && Mappable(vm, i) && TableToSpare(vm, i) && Slot(i2) && Index(j2)
    ensures NextFrame(vm.frames) < |vm.mem|
    ensures var v := Mapped(vm, i, j, g, kernel, writeable);
      && VmInv(v) && v.dir == vm.dir && BitsKept(vm.frames, v.frames)
      && AccessPage(v.mem, v.dir, i2, j2)
         == Translated(vm, Map(i, j, g, kernel, writeable), i2, j2, AccessPage(vm.mem, vm.dir, i2, j2))
  {
    MapAccess(vm, i, j, g, kernel, writeable, i2, j2);
    WithTableInv(vm, i, writeable, !kernel);
  }

  lemma StepKeeps(vm: Vm, c: PageCall, v: Vm, i: int, j: int)
    requires VmInv(vm) && Step(vm, c, v) && Slot(i) && Index(j)
    ensures Sized(vm.frames) && VmInv(v) && v.dir == vm.dir && BitsKept(vm.frames, v.frames)
    ensures AccessPage(v.mem, v.dir, i, j) == Translated(vm, c, i, j, AccessPage(vm.mem, vm.dir, i, j))
  {
    hide Mapped, WithTable, PageGiven, VmInv;
    match c
    case Map(i2, j2, g, kernel, writeable) => MapStep(vm, i2, j2, g, kernel, writeable, i, j);
    case Open(i2, readWrite, user) => OpenStep(vm, i2, readWrite, user, i, j);
    case Back(i2, j2, kernel, writeable) => BackStep(vm, i2, j2, kernel, writeable, i, j);
    case Write(f, j2, e) => DataKeepsInv(vm, f, j2, e); DataAccess(vm, f, j2, e, i, j);
  }

  // ---------- whole runs ----------

  lemma RunStep(vms: seq<Vm>, cs: seq<PageCall>, k: nat)
    requires Run(vms, cs) && k < |cs|
    ensures |vms| == |cs| + 1 && Step(vms[k], cs[k], vms[k + 1])
    ensures Sized(vms[k].frames)
  {
    assert Step(vms[k], cs[k], vms[k + 1]);
    EditableParts(vms[k]);
  }

  /** What is granted on page `j` of slot `i` after the first `n` calls, read off the calls. */
  ghost function Translation(vms: seq<Vm>, cs: seq<PageCall>, n: nat, i: int, j: int): Option<Access>
    requires Run(vms, cs) && Walkable(vms[0]) && n <= |cs| && Slot(i) && Index(j)
  {
    if n == 0 then AccessPage(vms[0].mem, vms[0].dir, i, j)
    else
      RunStep(vms, cs, n - 1);
      Translated(vms[n - 1], cs[n - 1], i, j, Translation(vms, cs, n - 1, i, j))
  }

  lemma RunStart(vms: seq<Vm>, cs: seq<PageCall>)
    requires Run(vms, cs) && VmInv(vms[0])
    ensures |vms| == |cs| + 1 && Walkable(vms[0])
  {
  }

  /** Over every run from a sound state the tables stay sound, and each page translates to the frame, and
      carries the rights, that the last call that concerned it gave it: no other call and no write to
      ordinary memory moves it or opens it. */
  lemma {:induction false} RunTranslates(vms: seq<Vm>, cs: seq<PageCall>, n: nat, i: int, j: int)
    requires Run(vms, cs) && VmInv(vms[0]) && n <= |cs| && Slot(i) && Index(j)
    ensures Walkable(vms[0]) && VmInv(vms[n]) && vms[n].dir == vms[0].dir
    ensures Walkable(vms[n]) && AccessPage(vms[n].mem, vms[n].dir, i, j) == Translation(vms, cs, n, i, j)
    ensures WalkPage(vms[n].mem, vms[n].dir, i, j) == FrameOf(Translation(vms, cs, n, i, j))
  {
    hide VmInv, Step, AccessPage, WalkPage, FrameOf, Translated, Run;
    RunStart(vms, cs);
    if n > 0 {
      RunTranslates(vms, cs, n - 1, i, j);
      RunStep(vms, cs, n - 1);
      StepKeeps(vms[n - 1], cs[n - 1], vms[n], i, j);
      VmParts(vms[n]);
    }
    AccessIsWalk(vms[n].mem, vms[n].dir, i, j);
  }

  lemma ZeroPage()
    ensures Slot(0) && Index(0)
  {
  }

  lemma {:induction false} RunKeepsBits(vms: seq<Vm>, cs: seq<PageCall>, k: nat, n: nat)
    requires Run(vms, cs) && VmInv(vms[0]) && k <= n <= |cs|
    ensures BitsKept(vms[k].frames, vms[n].frames)
    decreases n
  {
    hide VmInv, Step, Run;
    RunStart(vms, cs);
    if k < n {
      RunKeepsBits(vms, cs, k, n - 1);
      RunStep(vms, cs, n - 1);
      RunTranslates(vms, cs, n - 1, 0, 0);
      ZeroPage();
      StepKeeps(vms[n - 1], cs[n - 1], vms[n], 0, 0);
    }
  }

  lemma BackedUsed(vm: Vm, c: PageCall, v: Vm)
    requires VmInv(vm) && Step(vm, c, v) && c.Back? && Sized(vm.frames) && Allocates(vm.frames)
    ensures NextFrame(vm.frames) < |v.frames.bits| && v.frames.bits[NextFrame(vm.frames)]
  {
    NextFrameFresh(vm);
    GivenInv(vm, c.i, c.j, c.kernel, c.writeable);
  }

  /** Pages backed by different calls of a run get different frames. */
  lemma BackedApart(vms: seq<Vm>, cs: seq<PageCall>, k: nat, n: nat)
    requires Run(vms, cs) && VmInv(vms[0]) && k < n < |cs| && cs[k].Back? && cs[n].Back?
    requires Sized(vms[k].frames) && Allocates(vms[k].frames)
    requires Sized(vms[n].frames) && Allocates(vms[n].frames)
    ensures NextFrame(vms[k].frames) != NextFrame(vms[n].frames)
  {
    ZeroPage();
    RunTranslates(vms, cs, k, 0, 0);
    RunTranslates(vms, cs, n, 0, 0);
    RunStep(vms, cs, k);
    BackedUsed(vms[k], cs[k], vms[k + 1]);
    RunKeepsBits(vms, cs, k + 1, n);
    NextFrameFresh(vms[n]);
  }

  // ---------- rights over whole runs ----------

  /** The rights a call asks for on the directory entry of a slot it opens. */
  function Asked(c: PageCall): (bool, bool)
  {
    match c
    case Map(_, _, _, kernel, writeable) => (writeable, !kernel)
    case Open(_, readWrite, user) => (readWrite, user)
    case _ => (false, false)
  }

  /** The call is about page `j` of slot `i`. */
  predicate Concerns(c: PageCall, i: int, j: int)
  {
    (c.Map? || c.Back?) && c.i == i && c.j == j
  }

  /** The directory entry of a slot with a table is never touched again; one that gets its table now has
      the rights that were asked for. */
  lemma StepSlot(vm: Vm, c: PageCall, v: Vm, i: int)
    requires VmInv(vm) && Step(vm, c, v) && Slot(i)
    ensures Walkable(vm) && Walkable(v)
    ensures var o, d := vm.mem[vm.dir][i], v.mem[v.dir][i];
      && (o.present ==> d == o)
      && (!o.present && d.present ==> (d.writable, d.user) == Asked(c) && !d.large)
  {
    hide VmInv, Mapped, WithTable, PageGiven, NextFrame;
    SoundEditable(vm);
    match c
    case Map(i2, j2, g, kernel, writeable) => MapWritten(vm, i2, j2, g, kernel, writeable);
    case Open(i2, readWrite, user) =>
      TableLinked(vm, i2, readWrite, user);
      TableRow(vm, i2, readWrite, user);
    case Back(i2, j2, kernel, writeable) => GiveEditable(vm, i2, j2, kernel, writeable);
    case Write(f, j2, e) => PutElsewhere(vm.mem, f, j2, e, vm.dir);
  }

  lemma StateAt(vms: seq<Vm>, cs: seq<PageCall>, n: nat)
    requires Run(vms, cs) && VmInv(vms[0]) && n <= |cs|
    ensures |vms| == |cs| + 1 && VmInv(vms[n]) && Walkable(vms[n]) && vms[n].dir == vms[0].dir
  {
    hide VmInv, Step, Run, AccessPage, WalkPage, Translation;
    RunStart(vms, cs);
    ZeroPage();
    RunTranslates(vms, cs, n, 0, 0);
  }

  lemma {:induction false} RunKeepsSlot(vms: seq<Vm>, cs: seq<PageCall>, k: nat, n: nat, i: int)
    requires Run(vms, cs) && VmInv(vms[0]) && k <= n <= |cs| && Slot(i)
    requires Walkable(vms[k]) && vms[k].mem[vms[k].dir][i].present
    ensures Walkable(vms[n]) && vms[n].mem[vms[n].dir][i] == vms[k].mem[vms[k].dir][i]
    decreases n
  {
    hide VmInv, Step, Run, Asked;
    RunStart(vms, cs);
    if k < n {
      RunKeepsSlot(vms, cs, k, n - 1, i);
      RunStep(vms, cs, n - 1);
      StateAt(vms, cs, n - 1);
      StepSlot(vms[n - 1], cs[n - 1], vms[n], i);
    }
  }

  lemma {:induction false} RunKeepsAccess(vms: seq<Vm>, cs: seq<PageCall>, k: nat, n: nat, i: int, j: int)
    requires Run(vms, cs) && VmInv(vms[0]) && k <= n <= |cs| && Slot(i) && Index(j)
    requires forall c :: k <= c < n ==> !Concerns(cs[c], i, j)
    ensures Walkable(vms[k]) && Walkable(vms[n])
    ensures AccessPage(vms[n].mem, vms[n].dir, i, j) == AccessPage(vms[k].mem, vms[k].dir, i, j)
    decreases n
  {
    hide VmInv, Step, Run, AccessPage;
    StateAt(vms, cs, k);
    StateAt(vms, cs, n);
    if k < n {
      RunKeepsAccess(vms, cs, k, n - 1, i, j);
      RunStep(vms, cs, n - 1);
      StateAt(vms, cs, n - 1);
      StepKeeps(vms[n - 1], cs[n - 1], vms[n], i, j);
    }
  }

  /** The call that opens a slot decides for good: a page mapped there later is writable, or in reach of
      user code, exactly when both that call and the last mapping of the page asked for it. */
  lemma RunGrants(vms: seq<Vm>, cs: seq<PageCall>, k: nat, m: nat, n: nat, i: int, j: int)
    requires Run(vms, cs) && VmInv(vms[0]) && k <= m < n <= |cs| && Slot(i) && Index(j)
    requires Walkable(vms[k]) && !vms[k].mem[vms[k].dir][i].present
    requires Walkable(vms[k + 1]) && vms[k + 1].mem[vms[k + 1].dir][i].present
    requires cs[m].Map? && Concerns(cs[m], i, j) && forall c :: m < c < n ==> !Concerns(cs[c], i, j)
    ensures Walkable(vms[n])
    ensures AccessPage(vms[n].mem, vms[n].dir, i, j)
         == Some(Access(cs[m].g, Asked(cs[k]).0 && cs[m].writeable, Asked(cs[k]).1 && !cs[m].kernel))
  {
    hide VmInv, Step, Run, AccessPage;
    StateAt(vms, cs, k);
    StateAt(vms, cs, m);
    RunStep(vms, cs, k);
    RunStep(vms, cs, m);
    StepSlot(vms[k], cs[k], vms[k + 1], i);
    if k < m { RunKeepsSlot(vms, cs, k + 1, m, i); }
    StepKeeps(vms[m], cs[m], vms[m + 1], i, j);
    RunKeepsAccess(vms, cs, m + 1, n, i, j);
  }
}
