/** The paging state after the heap-window loop of `Init`: what the loop writes into the tables it makes,
    and what becomes of the boot directory. */
module BootPaging {
  import opened Words
  import opened FrameSpec
  import opened PageWalk
  import opened PageSpec
  import opened PageRights
  import opened PageWindow

  // ---------- the entries the loop leaves ----------

  /** Present, writable and out of reach of user code, with all other bits clear. */
  predicate KernelEntry(e: Entry)
  {
    e.present && e.writable && !e.user && !e.large && RestKept(e, EMPTY)
  }

  lemma KernelWord(e: Entry)
    requires KernelEntry(e)
    ensures Encode(e) == 4096 * e.frame + 3
  {
    EncodeBits(e);
  }

  /** A slot that got its table in this round, or had it. */
  lemma WrittenAfter(vm: Vm, w: Vm, v: Vm, i: int, j: int, g: int)
    requires Editable(vm) && Slot(i) && Mappable(vm, i)
    requires Sized(vm.frames) && NextFrame(vm.frames) < |vm.mem| && w == WithTable(vm, i, true, false)
    requires PageWritten(w, v, i, j, g, true, true) && Walkable(v)
    ensures PageWritten(vm, v, i, j, g, true, true)
    ensures v.mem[v.dir] == w.mem[w.dir] ==> SlotLinked(vm, v, i, true, false)
  {
    hide Editable, WithTable, NextFrame, Zeros;
    TableRow(vm, i, true, false);
    TableLinked(vm, i, true, false);
  }

  lemma RoundWritten(vm: Vm, p: int) returns (g: int)
    requires VmInv(vm) && Page(p) && Mappable(vm, p / ENTRIES) && Affords(vm, p / ENTRIES)
    ensures Editable(vm) && SlotLinked(vm, HeapPage(vm, p), p / ENTRIES, true, false)
    ensures PageWritten(vm, HeapPage(vm, p), p / ENTRIES, p % ENTRIES, g, true, true)
  {
    hide Editable, WithTable, PageGiven, SlotLinked, PageWritten;
    var i := p / ENTRIES;
    SoundEditable(vm);
    NextFrameFresh(vm);
    WithTableInv(vm, i, true, false);
    CreateEditable(vm, i, true, false);
    var w := WithTable(vm, i, true, false);
    NextFrameFresh(w);
    GivenInv(w, i, p % ENTRIES, true, true);
    GiveWritten(w, i, p % ENTRIES, true, true);
    g := NextFrame(w.frames);
    WrittenAfter(vm, w, HeapPage(vm, p), i, p % ENTRIES, g);
  }

  /** Slots without a table in `vm0` that have one in `v` were linked for the kernel... */
  ghost predicate FreshLinks(vm0: Vm, v: Vm)
    requires Walkable(vm0) && Walkable(v)
  {
    forall k | Slot(k) && !vm0.mem[vm0.dir][k].present && v.mem[v.dir][k].present ::
      var d := v.mem[v.dir][k];
      d.writable && !d.user && !d.large && RestKept(d, vm0.mem[vm0.dir][k])
  }

  /** ...and in those tables exactly the `n` pages from `first` on have entries, for the kernel alone. */
  ghost predicate FreshTables(vm0: Vm, v: Vm, first: int, n: nat)
    requires Walkable(vm0) && Walkable(v)
  {
    forall k, j | Slot(k) && Index(j) && !vm0.mem[vm0.dir][k].present && Small(v.mem, v.dir, k) ::
      v.mem[v.dir][k].frame < |v.mem|
      && var e := v.mem[v.mem[v.dir][k].frame][j];
      if first <= k * ENTRIES + j < first + n then KernelEntry(e) else e == EMPTY
  }

  lemma LinksStep(vm0: Vm, vm: Vm, v: Vm, i: int, j: int, g: int)
    requires Walkable(vm0) && Walkable(vm) && FreshLinks(vm0, vm) && vm.dir == vm0.dir && Slot(i)
    requires !vm0.mem[vm0.dir][i].present ==> vm.mem[vm.dir][i].present || vm.mem[vm.dir][i] == vm0.mem[vm0.dir][i]
    requires SlotLinked(vm, v, i, true, false) && PageWritten(vm, v, i, j, g, true, true)
    ensures FreshLinks(vm0, v)
  {
  }

  lemma PageOfEntry(p: int, k: int, j: int)
    requires Page(p) && Index(j)
    ensures k * ENTRIES + j == p <==> k == p / ENTRIES && j == p % ENTRIES
  {
  }

  lemma NewEntry(vm: Vm, v: Vm, i: int, j: int, g: int)
    requires PageWritten(vm, v, i, j, g, true, true)
    requires vm.mem[vm.dir][i].present ==> vm.mem[vm.mem[vm.dir][i].frame][j] == EMPTY
    ensures KernelEntry(v.mem[v.mem[v.dir][i].frame][j])
  {
  }

  lemma TablesStep(vm0: Vm, vm: Vm, v: Vm, first: int, n: nat, g: int)
    requires Walkable(vm0) && Walkable(vm) && vm.dir == vm0.dir && FreshTables(vm0, vm, first, n)
    requires Tables(v.mem, v.dir) && Page(first + n)
    requires vm.mem[vm.dir][(first + n) / ENTRIES].present ==> Small(vm.mem, vm.dir, (first + n) / ENTRIES)
    requires !vm.mem[vm.dir][(first + n) / ENTRIES].present ==>
               forall j | Index(j) :: (first + n) / ENTRIES * ENTRIES + j < first || j >= (first + n) % ENTRIES
    requires PageWritten(vm, v, (first + n) / ENTRIES, (first + n) % ENTRIES, g, true, true)
    ensures FreshTables(vm0, v, first, n + 1)
  {
    var p := first + n;
    var i := p / ENTRIES;
    forall k, j | Slot(k) && Index(j) && !vm0.mem[vm0.dir][k].present && Small(v.mem, v.dir, k)
      ensures v.mem[v.dir][k].frame < |v.mem|
      ensures var e := v.mem[v.mem[v.dir][k].frame][j];
              if first <= k * ENTRIES + j < first + (n + 1) then KernelEntry(e) else e == EMPTY
    {
      PageOfEntry(p, k, j);
      if k != i {
        assert v.mem[v.dir][k].frame != v.mem[v.dir][i].frame;
      } else {
        if vm.mem[vm.dir][i].present { PageOfEntry(p, i, p % ENTRIES); }
        NewEntry(vm, v, i, p % ENTRIES, g);
      }
    }
  }

  /** The slot of the next page is untouched until its first page is reached. */
  lemma UntouchedSlot(vm0: Vm, vm: Vm, first: int, n: nat)
    requires HeapMapped(vm0, vm, first, n) && Page(first + n) && Walkable(vm) && Walkable(vm0)
    ensures var p := first + n;
      var i := p / ENTRIES;
      && (!vm.mem[vm.dir][i].present ==> forall j | Index(j) :: i * ENTRIES + j < first || j >= p % ENTRIES)
      && (!vm0.mem[vm0.dir][i].present ==>
            vm.mem[vm.dir][i].present || vm.mem[vm.dir][i] == vm0.mem[vm0.dir][i])
  {
    var p := first + n;
    var i := p / ENTRIES;
    SlotOfNext(first, n);
    if !vm.mem[vm.dir][i].present {
      forall j | Index(j) ensures i * ENTRIES + j < first || j >= p % ENTRIES {
        PageOfEntry(p, i, j);
        if first <= i * ENTRIES + j < p { SlotInRange(first, n, i * ENTRIES + j); }
      }
    }
  }

  lemma NothingFresh(vm: Vm, first: int)
    requires Walkable(vm)
    ensures FreshLinks(vm, vm) && FreshTables(vm, vm, first, 0)
  {
  }

  lemma MappedTables(vm0: Vm, vm: Vm, first: int, n: nat)
    requires HeapMapped(vm0, vm, first, n)
    ensures Tables(vm.mem, vm.dir) && vm.dir == vm0.dir
  {
  }

  /** With enough frames the loop opens slots, and fills their tables, for the kernel alone. */
  lemma {:induction false} LoopRights(vm: Vm, first: int, n: nat, total: nat)
    requires HeapFits(vm, first, total) && n <= total
    ensures Editable(vm) && RangeMappable(vm, first, n) && Walkable(WindowLoop(vm, first, n))
    ensures FreshLinks(vm, WindowLoop(vm, first, n)) && FreshTables(vm, WindowLoop(vm, first, n), first, n)
    decreases n
  {
    hide HeapFits, HeapMapped, HeapPage, VmInv, Editable, RangeMappable, FreshLinks, FreshTables, SlotLinked,
         PageWritten, Tables;
    FitsRange(vm, first, total);
    RangePrefix(vm, first, n, total);
    LoopFits(vm, first, n, total);
    if n == 0 {
      NothingFresh(vm, first);
    } else {
      LoopRights(vm, first, n - 1, total);
      LoopFits(vm, first, n - 1, total);
      var u := WindowLoop(vm, first, n - 1);
      var p := first + (n - 1);
      RoundAffordable(vm, u, first, n - 1, total);
      UntouchedSlot(vm, u, first, n - 1);
      var g := RoundWritten(u, p);
      MappedTables(vm, WindowLoop(vm, first, n), first, n);
      LinksStep(vm, u, HeapPage(u, p), p / ENTRIES, p % ENTRIES, g);
      TablesStep(vm, u, HeapPage(u, p), first, n - 1, g);
    }
  }

  // ---------- the state Init starts from ----------

  /** A present, writable 4 MB page at physical address 0: the word 0x83. */
  const BOOT_PAGE := EMPTY.(present := true, writable := true, large := true)

  /** The kernel's slot. */
  const KERNEL_SLOT := 768

  lemma BootPageWord()
    ensures Encode(BOOT_PAGE) == 0x83
  {
    EncodeBits(BOOT_PAGE);
  }

  /** The directory the boot code starts with: two 4 MB pages and nothing else. */
  ghost predicate BootDirectory(m: Phys, dir: int)
  {
    && Framed(m) && 0 < dir < |m|
    && forall i | 0 <= i < ENTRIES :: m[dir][i] == if i == 0 || i == KERNEL_SLOT then BOOT_PAGE else EMPTY
  }

  /** The entry `Init` puts in the last slot. */
  function SelfEntry(dir: Frame): Entry
  {
    EMPTY.(frame := dir, writable := true, present := true)
  }

  /** Its word: the directory's frame, present and writable, for the kernel alone. */
  lemma SelfWord(dir: Frame)
    ensures Encode(SelfEntry(dir)) == 4096 * dir + 3
  {
    KernelWord(SelfEntry(dir));
  }

  /** The state `Init` boots into, with the last slot set. */
  function SelfMappedBoot(vm: Vm): Vm
    requires Walkable(vm)
  {
    vm.(mem := Put(vm.mem, vm.dir, SELF, SelfEntry(vm.dir)))
  }

  /** Once the last slot points at the directory, the boot state is a sound paging state
      in which exactly the four tables of the heap window are missing. */
  lemma BootIsSound(vm: Vm)
    requires BootDirectory(vm.mem, vm.dir) && Accounted(vm.frames) && vm.frames.max <= |vm.mem|
    requires vm.dir < |vm.frames.bits| && vm.frames.bits[0] && vm.frames.bits[vm.dir]
    ensures var v := SelfMappedBoot(vm);
      && VmInv(v)
      && Absent(v, HEAP_START / 0x40_0000, SlotEnd(HEAP_START / PAGE_SIZE, HEAP_SIZE / PAGE_SIZE)) == 4
      && (HeapFits(v, HEAP_START / PAGE_SIZE, HEAP_SIZE / PAGE_SIZE) <==> 4096 + 4 <= FreeFrames(vm.frames))
  {
    var v := SelfMappedBoot(vm);
    assert forall i | Slot(i) :: v.mem[v.dir][i] == vm.mem[vm.dir][i];
    assert SlotEnd(HEAP_START / PAGE_SIZE, HEAP_SIZE / PAGE_SIZE) == 773;
    assert Absent(v, 769, 769) == 0 && Absent(v, 769, 770) == 1;
    assert Absent(v, 769, 771) == 2 && Absent(v, 769, 772) == 3;
  }

  /** Every one of the `n` pages from `first` on is mapped to a frame of memory that is not
      frame 0, no table and not the directory, and no two of them share it. */
  ghost predicate OwnFrames(vm: Vm, first: int, n: nat)
    requires Walkable(vm) && 0 <= first && first + n <= SELF * ENTRIES
  {
    && (forall p | first <= p < first + n ::
          && PageFrame(vm, p).Some? && 0 < PageFrame(vm, p).value < vm.frames.max
          && NoTable(vm.mem, vm.dir, PageFrame(vm, p).value))
    && (forall p, q | first <= p < q < first + n :: PageFrame(vm, p) != PageFrame(vm, q))
  }

  /** Those pages are mapped through tables, not as parts of 4 MB pages. */
  ghost predicate SmallPages(vm: Vm, first: int, n: nat)
    requires Walkable(vm) && 0 <= first && first + n <= SELF * ENTRIES
  {
    forall p | first <= p < first + n :: Small(vm.mem, vm.dir, p / ENTRIES)
  }

  lemma HeapMappedPages(vm0: Vm, vm: Vm, first: int, n: nat)
    requires HeapMapped(vm0, vm, first, n)
    ensures OwnFrames(vm, first, n) && SmallPages(vm, first, n)
  {
    forall p | first <= p < first + n
      ensures PageFrame(vm, p).Some? && 0 < PageFrame(vm, p).value < vm.frames.max
      ensures NoTable(vm.mem, vm.dir, PageFrame(vm, p).value)
    {
      assert Backed(vm0, vm, p);
    }
  }

  /** Those pages are mapped by the kernel for itself: on both levels the entry is present, writable and
      out of reach of user code, and has no other bit set. */
  ghost predicate KernelPages(vm: Vm, first: int, n: nat)
    requires Walkable(vm) && 0 <= first && first + n <= SELF * ENTRIES
  {
    forall p | first <= p < first + n ::
      var d := vm.mem[vm.dir][p / ENTRIES];
      KernelEntry(d) && d.frame < |vm.mem| && KernelEntry(vm.mem[d.frame][p % ENTRIES])
  }

  lemma FreshKernel(vm0: Vm, vm: Vm, first: int, n: nat)
    requires Walkable(vm0) && Walkable(vm) && 0 <= first && first + n <= SELF * ENTRIES
    requires FreshLinks(vm0, vm) && FreshTables(vm0, vm, first, n) && SmallPages(vm, first, n)
    requires forall p | first <= p < first + n :: vm0.mem[vm0.dir][p / ENTRIES] == EMPTY
    ensures KernelPages(vm, first, n)
  {
    forall p | first <= p < first + n
      ensures var d := vm.mem[vm.dir][p / ENTRIES];
              KernelEntry(d) && d.frame < |vm.mem| && KernelEntry(vm.mem[d.frame][p % ENTRIES])
    {
      var k, j := p / ENTRIES, p % ENTRIES;
      PageOfEntry(p, k, j);
      assert vm0.mem[vm0.dir][k] == EMPTY && Small(vm.mem, vm.dir, k);
      assert Slot(k) && Index(j);
    }
  }

  /** What `Init` has to start from. */
  ghost predicate Bootable(vm: Vm)
  {
    && BootDirectory(vm.mem, vm.dir) && Accounted(vm.frames) && vm.frames.max <= |vm.mem|
    && vm.dir < |vm.frames.bits| && vm.frames.bits[0] && vm.frames.bits[vm.dir]
  }

  /** The state after the heap-window loop of `Init` (line 52): the whole heap window mapped to
      frames of its own, at a cost of one frame for each of its pages and of its four tables. */
  ghost predicate WindowReady(vm0: Vm, vm: Vm)
  {
    && VmInv(vm) && FreeFrames(vm.frames) == FreeFrames(vm0.frames) - (4096 + 4)
    && OwnFrames(vm, HEAP_START / PAGE_SIZE, HEAP_SIZE / PAGE_SIZE)
    && SmallPages(vm, HEAP_START / PAGE_SIZE, HEAP_SIZE / PAGE_SIZE)
    && KernelPages(vm, HEAP_START / PAGE_SIZE, HEAP_SIZE / PAGE_SIZE)
  }

  /** So the hardware lets the kernel alone read and write there, and the words of the tables are known:
      the frame, and 3 in the low bits. */
  lemma WindowRights(vm0: Vm, vm: Vm, p: int)
    requires WindowReady(vm0, vm) && HEAP_START <= p * PAGE_SIZE < HEAP_START + HEAP_SIZE
    ensures Walkable(vm) && Page(p) && PageFrame(vm, p).Some?
    ensures AccessPage(vm.mem, vm.dir, p / ENTRIES, p % ENTRIES) == Some(Access(PageFrame(vm, p).value, true, false))
    ensures var d := vm.mem[vm.dir][p / ENTRIES];
      && d.frame < |vm.mem| && Encode(d) == 4096 * d.frame + 3
      && Encode(vm.mem[d.frame][p % ENTRIES]) == 4096 * PageFrame(vm, p).value + 3
  {
    var d := vm.mem[vm.dir][p / ENTRIES];
    assert KernelEntry(d) && KernelEntry(vm.mem[d.frame][p % ENTRIES]);
    KernelWord(d);
    KernelWord(vm.mem[d.frame][p % ENTRIES]);
  }

  lemma BootFits(vm: Vm)
    requires Bootable(vm) && Walkable(vm)
    ensures HeapFits(SelfMappedBoot(vm), HEAP_START / PAGE_SIZE, HEAP_SIZE / PAGE_SIZE)
            <==> 4096 + 4 <= FreeFrames(vm.frames)
  {
    BootIsSound(vm);
  }

  lemma MappedCost(vm0: Vm, vm: Vm, first: int, n: nat)
    requires HeapMapped(vm0, vm, first, n) && Walkable(vm0)
    ensures VmInv(vm) && SlotEnd(first, n) <= SELF
    ensures FreeFrames(vm.frames)
            == FreeFrames(vm0.frames) - n - Absent(vm0, first / ENTRIES, SlotEnd(first, n))
  {
  }

  lemma BootDone(vm: Vm, v: Vm)
    requires Bootable(vm) && Walkable(vm)
    requires HeapMapped(SelfMappedBoot(vm), v, HEAP_START / PAGE_SIZE, HEAP_SIZE / PAGE_SIZE)
    requires Walkable(v) && FreshLinks(SelfMappedBoot(vm), v)
    requires FreshTables(SelfMappedBoot(vm), v, HEAP_START / PAGE_SIZE, HEAP_SIZE / PAGE_SIZE)
    ensures WindowReady(vm, v)
  {
    hide FreshLinks, FreshTables, KernelPages, SmallPages, OwnFrames, HeapMapped, HeapFits, VmInv;
    BootIsSound(vm);
    HeapMappedPages(SelfMappedBoot(vm), v, HEAP_START / PAGE_SIZE, HEAP_SIZE / PAGE_SIZE);
    MappedCost(SelfMappedBoot(vm), v, HEAP_START / PAGE_SIZE, HEAP_SIZE / PAGE_SIZE);
    FreshKernel(SelfMappedBoot(vm), v, HEAP_START / PAGE_SIZE, HEAP_SIZE / PAGE_SIZE);
  }

  lemma BootRange(vm: Vm)
    requires Bootable(vm)
    ensures Walkable(vm) && VmInv(SelfMappedBoot(vm)) && Editable(SelfMappedBoot(vm))
    ensures RangeMappable(SelfMappedBoot(vm), HEAP_START / PAGE_SIZE, HEAP_SIZE / PAGE_SIZE)
    ensures forall p | HEAP_START / PAGE_SIZE <= p < HEAP_START / PAGE_SIZE + HEAP_SIZE / PAGE_SIZE ::
              PageFrame(SelfMappedBoot(vm), p).None?
  {
    BootIsSound(vm);
    SoundEditable(SelfMappedBoot(vm));
  }

  /** `Init` up to line 52 ends with the whole heap window mapped exactly when 4096 + 4 frames were free,
      and then leaves it ready. */
  lemma BootWindow(vm: Vm)
    requires Bootable(vm)
    ensures Walkable(vm) && Editable(SelfMappedBoot(vm))
    ensures RangeMappable(SelfMappedBoot(vm), HEAP_START / PAGE_SIZE, HEAP_SIZE / PAGE_SIZE)
    ensures var v := WindowLoop(SelfMappedBoot(vm), HEAP_START / PAGE_SIZE, HEAP_SIZE / PAGE_SIZE);
      && Walkable(v)
      && ((forall p | HEAP_START / PAGE_SIZE <= p < HEAP_START / PAGE_SIZE + HEAP_SIZE / PAGE_SIZE ::
             PageFrame(v, p).Some?)
          <==> 4096 + 4 <= FreeFrames(vm.frames))
      && (4096 + 4 <= FreeFrames(vm.frames) ==> WindowReady(vm, v))
  {
    hide WindowLoop, HeapFits, HeapMapped, PageFrame, RangeMappable, Editable, Bootable, WindowReady, FreshLinks,
         FreshTables;
    BootRange(vm);
    BootFits(vm);
    LoopMapsIff(SelfMappedBoot(vm), HEAP_START / PAGE_SIZE, HEAP_SIZE / PAGE_SIZE);
    if 4096 + 4 <= FreeFrames(vm.frames) {
      LoopRights(SelfMappedBoot(vm), HEAP_START / PAGE_SIZE, HEAP_SIZE / PAGE_SIZE, HEAP_SIZE / PAGE_SIZE);
      BootDone(vm, WindowLoop(SelfMappedBoot(vm), HEAP_START / PAGE_SIZE, HEAP_SIZE / PAGE_SIZE));
    }
  }

  /** Memory with frames of their own behaves as private flat memory: two different heap
      addresses are two different physical addresses, and none is in a page table. */
  lemma HeapIsPrivate(vm: Vm, first: int, n: nat, a: Word, b: Word)
    requires Walkable(vm) && 0 <= first && first + n <= SELF * ENTRIES && OwnFrames(vm, first, n)
    requires first <= a / PAGE_SIZE < first + n && first <= b / PAGE_SIZE < first + n && a != b
    ensures Walk(vm.mem, vm.dir, a).Some? && Walk(vm.mem, vm.dir, a) != Walk(vm.mem, vm.dir, b)
    ensures NoTable(vm.mem, vm.dir, Walk(vm.mem, vm.dir, a).value / PAGE_SIZE)
  {
    assert Slot(DirIndex(a)) && Slot(DirIndex(b));
    WalkIsPage(vm, a);
    WalkIsPage(vm, b);
    var p, q := a / PAGE_SIZE, b / PAGE_SIZE;
    assert PageFrame(vm, p).Some? && PageFrame(vm, q).Some?;
    if p < q { assert PageFrame(vm, p) != PageFrame(vm, q); }
    if q < p { assert PageFrame(vm, q) != PageFrame(vm, p); }
  }
}
