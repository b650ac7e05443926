/** The kernel's page-table code. It only ever stores through virtual addresses; the
    machine translates each of them with the tables that are being edited. */
module VirtualMem {
  import opened Words
  import opened FrameSpec
  import opened PhysicalMem
  import opened PageWalk
  import opened PageSpec
  import opened PageRights
  import opened PageWindow
  import opened BootPaging

  /** The processor: physical memory and the frame of the current directory (CR3). */
  class Machine {
    var mem: Phys
    var cr3: int

    constructor (mem: Phys, cr3: int)
      ensures this.mem == mem && this.cr3 == cr3
    {
      this.mem, this.cr3 := mem, cr3;
    }

    /** The virtual address is mapped to entry `j` of frame `f` of physical memory. */
    ghost predicate Hits(va: Word, f: int, j: int)
      reads this
    {
      Reach(mem, cr3, va) == Some((f, j))
    }

    /** Read the entry at a virtual address. */
    method Load(va: Word, ghost f: int, ghost j: int) returns (e: Entry)
      requires Hits(va, f, j)
      ensures 0 <= f < |mem| && 0 <= j < |mem[f]| && e == mem[f][j]
    {
      var pa := Walk(mem, cr3, va).value;
      e := mem[pa / PAGE_SIZE][pa % PAGE_SIZE / 4];
    }

    /** Write the entry at a virtual address. */
    method Store(va: Word, e: Entry, ghost f: int, ghost j: int)
      requires Hits(va, f, j)
      modifies this`mem
      ensures 0 <= f < |old(mem)| && 0 <= j < |old(mem)[f]| && mem == Put(old(mem), f, j, e)
    {
      var pa := Walk(mem, cr3, va).value;
      mem := Put(mem, pa / PAGE_SIZE, pa % PAGE_SIZE / 4, e);
    }

    /** Assign to a bit field of the entry at a virtual address: read, change, write. */
    method Assign(va: Word, edit: Entry -> Entry, ghost f: int, ghost j: int)
      requires Hits(va, f, j)
      modifies this`mem
      ensures 0 <= f < |old(mem)| && 0 <= j < |old(mem)[f]|
      ensures mem == Put(old(mem), f, j, edit(old(mem)[f][j]))
    {
      var e := Load(va, f, j);
      Store(va, edit(e), f, j);
    }
  }

  lemma PutTwice(m: Phys, f: int, j: int, d: Entry, e: Entry)
    requires 0 <= f < |m| && 0 <= j < |m[f]|
    ensures Put(Put(m, f, j, d), f, j, e) == Put(m, f, j, e)
  {
    assert m[f][j := d][j := e] == m[f][j := e];
    assert m[f := m[f][j := d]][f := m[f][j := e]] == m[f := m[f][j := e]];
  }

  lemma PutSame(m: Phys, f: int, j: int)
    requires 0 <= f < |m| && 0 <= j < |m[f]|
    ensures Put(m, f, j, m[f][j]) == m
  {
    assert m[f][j := m[f][j]] == m[f];
  }

  lemma PutKeepsSelf(m: Phys, dir: int, i: int, e: Entry)
    requires SelfMapped(m, dir) && Slot(i)
    ensures SelfMapped(Put(m, dir, i, e), dir)
  {
  }

  /** The bitwise or of two numbers. */
  function Or(a: nat, b: nat): nat
  {
    if a == 0 && b == 0 then 0
    else (if a % 2 == 1 || b % 2 == 1 then 1 else 0) + 2 * Or(a / 2, b / 2)
  }

  /** `a` shifted left by `k` bits. */
  function Shl(a: nat, k: nat): nat
  {
    if k == 0 then a else 2 * Shl(a, k - 1)
  }

  lemma {:induction false} OrZero(a: nat)
    ensures Or(a, 0) == a
  {
    if a > 0 { OrZero(a / 2); }
  }

  /** An or of numbers that share no bit is their sum. */
  lemma {:induction false} OrIsSum(a: nat, k: nat, b: nat)
    requires b < Shl(1, k)
    ensures Or(Shl(a, k), b) == Shl(a, k) + b
    decreases k
  {
    if k == 0 { OrZero(a); } else { OrIsSum(a, k - 1, b / 2); }
  }

  lemma ShlFour(a: nat, k: nat)
    ensures Shl(a, k + 4) == 16 * Shl(a, k)
  {
    assert Shl(a, k + 2) == 4 * Shl(a, k);
    assert Shl(a, k + 4) == 4 * Shl(a, k + 2);
  }

  lemma WindowBits(n: nat)
    ensures Shl(1, 22) == 0x40_0000 && Shl(0x3FF, 22) == PAGE_TABLE_ADDRESS && Shl(n, 12) == n * PAGE_SIZE
  {
    assert Shl(1, 8) == 0x100 && Shl(1, 12) == 0x1000 && Shl(1, 16) == 0x1_0000;
    assert Shl(0x3FF, 8) == 0x3_FF00 && Shl(0x3FF, 16) == 0x3FF_0000;
    ShlFour(n, 0);
    ShlFour(n, 4);
    ShlFour(n, 8);
  }

  /** Address of table `n` in the window: the base or'ed with the shifted number. */
  function GetPageTableAddress(n: int): (r: Word)
    requires 0 <= n < ENTRIES
    ensures r == PAGE_TABLE_ADDRESS + n * PAGE_SIZE
  {
    WindowBits(n);
    OrIsSum(0x3FF, 22, Shl(n, 12));
    Or(PAGE_TABLE_ADDRESS, Shl(n, 12))
  }

  /** Stepping through a range page by page. */
  lemma PageSteps(first: int, total: nat, n: nat)
    requires 0 <= first && n <= total
    ensures (first + n) * PAGE_SIZE < (first + total) * PAGE_SIZE <==> n < total
    ensures (first + n) * PAGE_SIZE / PAGE_SIZE == first + n
    ensures (first + n) * PAGE_SIZE + PAGE_SIZE == (first + (n + 1)) * PAGE_SIZE
    ensures n < total ==> (first + (n + 1)) * PAGE_SIZE <= (first + total) * PAGE_SIZE
  {
  }

  lemma KernelPageParts(dir: int, j: int)
    requires 0 <= dir < ENTRIES && Index(j)
    ensures var va := KERNEL_OFFSET + dir * PAGE_SIZE + 4 * j;
      DirIndex(va) == KERNEL_SLOT && TableIndex(va) == dir && va % PAGE_SIZE == 4 * j
  {
    var va := KERNEL_OFFSET + dir * PAGE_SIZE + 4 * j;
    assert va / PAGE_SIZE == 0xC0000 + dir;
  }

  /** The boot directory, seen through the kernel's 4 MB page. */
  lemma KernelPageReach(m: Phys, dir: int, j: int)
    requires BootDirectory(m, dir) && dir < ENTRIES && Index(j)
    ensures Reach(m, dir, KERNEL_OFFSET + dir * PAGE_SIZE + 4 * j) == Some((dir, j))
  {
    var va := KERNEL_OFFSET + dir * PAGE_SIZE + 4 * j;
    KernelPageParts(dir, j);
    assert WalkPage(m, dir, KERNEL_SLOT, dir) == Some(dir);
    var pa := dir * PAGE_SIZE + 4 * j;
    assert pa / PAGE_SIZE == dir && pa % PAGE_SIZE / 4 == j && pa % 4 == 0;
  }

  /** A table whose first `k` entries have been zeroed. */
  function Zeroed(row: seq<Entry>, k: int): seq<Entry>
    requires |row| == ENTRIES && 0 <= k <= ENTRIES
  {
    Zeros()[..k] + row[k..]
  }

  lemma ZeroStep(m: Phys, dir: int, i: int, f: int, k: int)
    requires SelfMapped(m, dir) && Slot(i) && m[dir][i].present && f == m[dir][i].frame < |m| && f != dir
    requires 0 <= k < ENTRIES
    ensures var z := m[f := Zeroed(m[f], k)];
      && Reach(z, dir, EntryAddress(i, k)) == Some((f, k))
      && Put(z, f, k, EMPTY) == m[f := Zeroed(m[f], k + 1)]
  {
    var z := m[f := Zeroed(m[f], k)];
    assert z[dir] == m[dir];
    WindowReach(z, dir, i, k);
    assert Zeroed(m[f], k)[k := EMPTY] == Zeroed(m[f], k + 1);
  }

  /** The window shows the table of slot `i` whenever the directory maps itself. */
  lemma TableHit(machine: Machine, i: int, j: int)
    requires SelfMapped(machine.mem, machine.cr3) && Slot(i) && Index(j)
    requires machine.mem[machine.cr3][i].present && machine.mem[machine.cr3][i].frame < |machine.mem|
    ensures machine.Hits(EntryAddress(i, j), machine.mem[machine.cr3][i].frame, j)
  {
    WindowReach(machine.mem, machine.cr3, i, j);
  }

  lemma PageNumbers(va: Word, pa: Word)
    ensures 0 <= DirIndex(va) < ENTRIES && Index(TableIndex(va)) && 0 <= pa / PAGE_SIZE < 0x10_0000
    ensures 0 <= TableIndex(va) < ENTRIES
  {
  }

  /** After the slot got its table, that table can be edited through the window. */
  lemma TableReady(vm: Vm, i: int, readWrite: bool, user: bool)
    requires Editable(vm) && Slot(i) && Mappable(vm, i)
    ensures Walkable(vm) && Sized(vm.frames) && NextFrame(vm.frames) < |vm.mem| && SelfMapped(vm.mem, vm.dir)
    ensures vm.mem[vm.dir][i].present ==> WithTable(vm, i, readWrite, user) == vm
    ensures var v := WithTable(vm, i, readWrite, user);
      && SelfMapped(v.mem, v.dir) && v.dir == vm.dir && v.mem[v.dir][i].present
      && v.mem[v.dir][i].frame < |v.mem| && v.mem[v.dir][i].frame != v.dir
  {
    CreateEditable(vm, i, readWrite, user);
  }

  lemma SlotBounds(m: Phys, dir: int, i: int)
    requires SelfMapped(m, dir) && Slot(i)
    ensures 0 <= dir < |m| && 0 <= i < |m[dir]|
  {
  }

  /** Five assignments make a link. */
  lemma LinkFields(m: Phys, dir: int, i: int, frame: Frame, readWrite: bool, user: bool)
    requires 0 <= dir < |m| && 0 <= i < |m[dir]|
    ensures m[dir][i].(frame := frame).(writable := readWrite).(user := user).(large := false).(present := true)
         == LinkedEntry(m[dir][i], frame, readWrite, user)
    ensures var n := Put(m, dir, i, LinkedEntry(m[dir][i], frame, readWrite, user));
      && |n| == |m| && |n[dir]| == |m[dir]|
      && var d := n[dir][i];
      d.present && !d.large && d.frame == frame && d.writable == readWrite && d.user == user && RestKept(d, m[dir][i])
  {
  }

  lemma EmptyMappable(vm: Vm, i: int)
    requires Editable(vm) && Slot(i) && !vm.mem[vm.dir][i].present
    ensures Mappable(vm, i)
  {
  }

  /** The three stages of making a table: a frame, a directory entry, zeros. */
  lemma CreateParts(vm: Vm, i: int, readWrite: bool, user: bool)
    requires Editable(vm) && Slot(i) && !vm.mem[vm.dir][i].present
    ensures Sized(vm.frames) && (vm.frames.used != vm.frames.max ==> ScanStays(vm.frames))
    ensures Walkable(vm) && SelfMapped(vm.mem, vm.dir)
    ensures PAGE_SIZE == 4096
    ensures var f := NextFrame(vm.frames);
      var m := Put(vm.mem, vm.dir, i, LinkedEntry(vm.mem[vm.dir][i], f, readWrite, user));
      && f == AllocatedAddr(vm.frames) / PAGE_SIZE < |vm.mem| == |m| && f != vm.dir
      && SelfMapped(m, vm.dir) && m[vm.dir][i].present && m[vm.dir][i].frame == f
      && WithTable(vm, i, readWrite, user) == Vm(m[f := Zeros()], vm.dir, Allocated(vm.frames))
  {
    EditableParts(vm);
  }

  /** The stages of backing a page: a frame, unless the allocator returns null, and a table entry. */
  lemma GiveParts(vm: Vm, i: int, j: int, kernel: bool, writeable: bool)
    requires Editable(vm) && Slot(i) && Index(j) && Small(vm.mem, vm.dir, i)
    ensures Sized(vm.frames) && (vm.frames.used != vm.frames.max ==> ScanStays(vm.frames))
    ensures Walkable(vm) && SelfMapped(vm.mem, vm.dir) && PAGE_SIZE == 4096
    ensures var e := vm.mem[vm.dir][i];
      e.present && e.frame < |vm.mem| && e.frame != vm.dir && j < |vm.mem[e.frame]|
    ensures var t, p := vm.mem[vm.dir][i].frame, AllocatedAddr(vm.frames);
      && 0 <= t && NextFrame(vm.frames) == p / PAGE_SIZE
      && PageGiven(vm, t, j, kernel, writeable)
         == if p == 0 then Vm(vm.mem, vm.dir, Allocated(vm.frames))
            else Vm(Put(vm.mem, t, j, MappedEntry(vm.mem[t][j], NextFrame(vm.frames), kernel, writeable)), vm.dir,
                    Allocated(vm.frames))
  {
    EditableParts(vm);
  }

  /** The two calls of a round. */
  lemma RoundParts(vm: Vm, va: Word)
    requires Editable(vm) && Page(va / PAGE_SIZE) && Mappable(vm, va / PAGE_SIZE / ENTRIES)
    ensures var i, j := va / PAGE_SIZE / ENTRIES, va / PAGE_SIZE % ENTRIES;
      && DirIndex(va) == i && TableIndex(va) == j && Slot(i) && Index(j)
      && SelfMapped(vm.mem, vm.dir) && Walkable(vm) && Sized(vm.frames) && NextFrame(vm.frames) < |vm.mem|
      && (vm.mem[vm.dir][i].present ==> WithTable(vm, i, true, false) == vm)
      && var v := WithTable(vm, i, true, false);
      && Editable(v) && v.dir == vm.dir && Walkable(v) && Small(v.mem, v.dir, i)
      && v.mem[v.dir][i].frame < |v.mem| && j < |v.mem[v.mem[v.dir][i].frame]| && Sized(v.frames)
      && HeapPage(vm, va / PAGE_SIZE) == PageGiven(v, v.mem[v.dir][i].frame, j, true, true)
  {
    var i := va / PAGE_SIZE / ENTRIES;
    EditableParts(vm);
    CreateEditable(vm, i, true, false);
    EditableParts(WithTable(vm, i, true, false));
  }

  lemma LoopStart(vm: Vm, first: int, total: nat)
    requires Editable(vm) && RangeMappable(vm, first, total)
    ensures 0 <= first && RangeMappable(vm, first, 0) && WindowLoop(vm, first, 0) == vm && PAGE_SIZE == 4096
  {
  }

  lemma LoopNext(vm: Vm, first: int, n: nat, total: nat)
    requires Editable(vm) && RangeMappable(vm, first, total) && n < total
    ensures RangeMappable(vm, first, n) && RangeMappable(vm, first, n + 1) && Walkable(vm)
    ensures var v := WindowLoop(vm, first, n);
      && Editable(v) && Page(first + n) && Walkable(v) && Mappable(v, (first + n) / ENTRIES)
      && WindowLoop(vm, first, n + 1) == HeapPage(v, first + n)
  {
    hide Editable, HeapPage;
    RangePrefix(vm, first, n, total);
    RangePrefix(vm, first, n + 1, total);
    LoopStep(vm, WindowLoop(vm, first, n), first, n + 1);
  }

  lemma BootParts(vm: Vm)
    requires Bootable(vm) && Walkable(vm)
    ensures BootDirectory(vm.mem, vm.dir)
    ensures SelfMappedBoot(vm) == vm.(mem := Put(vm.mem, vm.dir, SELF, SelfEntry(vm.dir)))
  {
  }

  class VirtualMem {
    const phyMem: PhysicalMem
    const machine: Machine

    constructor (phyMem: PhysicalMem, machine: Machine)
      ensures this.phyMem == phyMem && this.machine == machine
    {
      this.phyMem, this.machine := phyMem, machine;
    }

    ghost function View(): Vm
      reads machine, phyMem, phyMem.memoryArray
    {
      Vm(machine.mem, machine.cr3, phyMem.View())
    }

    /** Assign to a bit field of directory entry `i` through the window. Earlier
        assignments may have made it `d`; memory is otherwise still `m`. */
    method AssignDirectory(i: int, edit: Entry -> Entry, ghost m: Phys, ghost d: Entry)
      requires SelfMapped(m, machine.cr3) && Slot(i) && machine.mem == Put(m, machine.cr3, i, d)
      modifies machine`mem
      ensures machine.mem == Put(m, machine.cr3, i, edit(d))
    {
      ghost var dir := machine.cr3;
      PutKeepsSelf(m, dir, i, d);
      WindowReach(machine.mem, dir, SELF, i);
      EntryAddressParts(SELF, i);
      machine.Assign(PAGE_DIRECTORY_ADDRESS + 4 * i, edit, dir, i);
      PutTwice(m, dir, i, d, edit(d));
    }

    /** Point directory entry `i` at a table: frame, readWrite, isUser, pageSize and
        present are assigned in this order. */
    method LinkTable(i: int, frame: Frame, readWrite: bool, user: bool)
      requires SelfMapped(machine.mem, machine.cr3) && Slot(i)
      modifies machine`mem
      ensures var m, dir := old(machine.mem), machine.cr3;
        machine.mem == Put(m, dir, i, LinkedEntry(m[dir][i], frame, readWrite, user))
      ensures var o, d := old(machine.mem)[machine.cr3][i], machine.mem[machine.cr3][i];
        && d.present && !d.large && d.frame == frame && d.writable == readWrite && d.user == user && RestKept(d, o)
    {
      hide *;
      ghost var m, dir := machine.mem, machine.cr3;
      SlotBounds(m, dir, i);
      LinkFields(m, dir, i, frame, readWrite, user);
      ghost var d: Entry := m[dir][i];
      PutSame(m, dir, i);
      AssignDirectory(i, (e: Entry) => e.(frame := frame), m, d);
      d := d.(frame := frame);
      AssignDirectory(i, (e: Entry) => e.(writable := readWrite), m, d);
      d := d.(writable := readWrite);
      AssignDirectory(i, (e: Entry) => e.(user := user), m, d);
      d := d.(user := user);
      AssignDirectory(i, (e: Entry) => e.(large := false), m, d);
      d := d.(large := false);
      AssignDirectory(i, (e: Entry) => e.(present := true), m, d);
    }

    /** Zero the table in slot `i` through the window. */
    method ClearTable(i: int, ghost f: int)
      requires SelfMapped(machine.mem, machine.cr3) && Slot(i) && machine.mem[machine.cr3][i].present
      requires f == machine.mem[machine.cr3][i].frame < |machine.mem| && f != machine.cr3
      modifies machine`mem
      ensures machine.mem == old(machine.mem)[f := Zeros()]
    {
      hide GetPageTableAddress;
      ghost var m: Phys := machine.mem;
      assert Zeroed(m[f], 0) == m[f];
      var k := 0;
      while k < ENTRIES
        invariant 0 <= k <= ENTRIES
        invariant machine.mem == m[f := Zeroed(m[f], k)]
      {
        ZeroStep(m, machine.cr3, i, f, k);
        machine.Store(GetPageTableAddress(i) + 4 * k, EMPTY, f, k);
        k := k + 1;
      }
      assert Zeroed(m[f], ENTRIES) == Zeros();
    }

    lemma ViewParts()
      ensures View() == Vm(machine.mem, machine.cr3, phyMem.View()) && PAGE_SIZE == 4096
      ensures phyMem.View().used == phyMem.usedBlocks && phyMem.View().max == phyMem.maximumBlocks
    {
    }

    /** Give the empty slot `i` a zeroed table (the creating branch of `GetPageForAddress`). */
    method CreateTable(i: int, readWrite: bool, userPages: bool)
      requires Editable(View()) && Slot(i) && !machine.mem[machine.cr3][i].present
      modifies machine`mem, phyMem, phyMem.memoryArray
      ensures NextFrame(old(phyMem.View())) < |old(machine.mem)|
      ensures View() == WithTable(old(View()), i, readWrite, userPages)
      ensures SlotLinked(old(View()), View(), i, readWrite, userPages)
    {
      hide *;
      ghost var vm := View();
      ViewParts();
      EmptyMappable(vm, i);
      TableLinked(vm, i, readWrite, userPages);
      CreateParts(vm, i, readWrite, userPages);
      var table := phyMem.AllocateBlock();
      LinkTable(i, table / PAGE_SIZE, readWrite, userPages);
      ClearTable(i, table / PAGE_SIZE);
      ViewParts();
    }

    /** The address, in the window, of the table entry for `virtualAddress`; with
        `shouldCreate` the slot gets a table first if it has none. Only then does more
        have to hold than that the directory maps itself. */
    method GetPageForAddress(virtualAddress: Word, shouldCreate: bool, readWrite: bool, userPages: bool)
      returns (at: Word)
      requires SelfMapped(machine.mem, machine.cr3)
      requires shouldCreate && !machine.mem[machine.cr3][DirIndex(virtualAddress)].present ==> Editable(View())
      modifies machine`mem, phyMem, phyMem.memoryArray
      ensures at == EntryAddress(DirIndex(virtualAddress), TableIndex(virtualAddress))
      ensures var vm, i := old(View()), DirIndex(virtualAddress);
        if shouldCreate && !vm.mem[vm.dir][i].present then
          && SlotLinked(vm, View(), i, readWrite, userPages)
          && NextFrame(vm.frames) < |vm.mem| && View() == WithTable(vm, i, readWrite, userPages)
        else
          View() == vm
    {
      hide GetPageTableAddress;
      var i, j := DirIndex(virtualAddress), TableIndex(virtualAddress);
      WindowReach(machine.mem, machine.cr3, SELF, i);
      EntryAddressParts(SELF, i);
      var pde := machine.Load(PAGE_DIRECTORY_ADDRESS + 4 * i, machine.cr3, i);
      if !pde.present && shouldCreate {
        CreateTable(i, readWrite, userPages);
      }
      at := GetPageTableAddress(i) + 4 * j;
    }

    /** Assign to a bit field of entry `j` of the table of slot `i`, through its address in
        the window. Earlier assignments may have made it `d`; memory is otherwise still `m`. */
    method AssignPage(at: Word, edit: Entry -> Entry, ghost i: int, ghost j: int, ghost m: Phys, ghost d: Entry)
      requires SelfMapped(m, machine.cr3) && Slot(i) && Index(j) && at == EntryAddress(i, j)
      requires var e := m[machine.cr3][i]; e.present && e.frame < |m| && e.frame != machine.cr3
      requires machine.mem == Put(m, m[machine.cr3][i].frame, j, d)
      modifies machine`mem
      ensures machine.mem == Put(m, m[machine.cr3][i].frame, j, edit(d))
    {
      ghost var t := m[machine.cr3][i].frame;
      assert machine.mem[machine.cr3] == m[machine.cr3];
      TableHit(machine, i, j);
      machine.Assign(at, edit, t, j);
      PutTwice(m, t, j, d, edit(d));
    }

    /** Make the entry at `at` map `frame`, field by field. */
    method MapEntry(at: Word, frame: Frame, kernel: bool, writeable: bool, ghost i: int, ghost j: int)
      requires SelfMapped(machine.mem, machine.cr3) && Slot(i) && Index(j) && at == EntryAddress(i, j)
      requires var e := machine.mem[machine.cr3][i];
        e.present && e.frame < |machine.mem| && e.frame != machine.cr3
      modifies machine`mem
      ensures var m := old(machine.mem);
        var t := m[machine.cr3][i].frame;
        machine.mem == Put(m, t, j, MappedEntry(m[t][j], frame, kernel, writeable))
    {
      ghost var m: Phys := machine.mem;
      ghost var t := m[machine.cr3][i].frame;
      ghost var d: Entry := m[t][j];
      PutSame(m, t, j);
      AssignPage(at, (e: Entry) => e.(frame := frame), i, j, m, d);
      d := d.(frame := frame);
      AssignPage(at, (e: Entry) => e.(user := !kernel), i, j, m, d);
      d := d.(user := !kernel);
      AssignPage(at, (e: Entry) => e.(writable := writeable), i, j, m, d);
      d := d.(writable := writeable);
      AssignPage(at, (e: Entry) => e.(present := true), i, j, m, d);
    }

    method MapVirtualToPhysical(phys: Word, virt: Word, kernel: bool, writeable: bool)
      requires Editable(View()) && Slot(DirIndex(virt)) && Mappable(View(), DirIndex(virt))
      modifies machine`mem, phyMem, phyMem.memoryArray
      ensures NextFrame(old(phyMem.View())) < |old(machine.mem)|
      ensures View()
           == Mapped(old(View()), DirIndex(virt), TableIndex(virt), phys / PAGE_SIZE, kernel, writeable)
      ensures SlotLinked(old(View()), View(), DirIndex(virt), writeable, !kernel)
      ensures PageWritten(old(View()), View(), DirIndex(virt), TableIndex(virt), phys / PAGE_SIZE, kernel, writeable)
    {
      hide *;
      ghost var vm := View();
      ViewParts();
      PageNumbers(virt, phys);
      MapWritten(vm, DirIndex(virt), TableIndex(virt), phys / PAGE_SIZE, kernel, writeable);
      MappedIs(vm, DirIndex(virt), TableIndex(virt), phys / PAGE_SIZE, kernel, writeable);
      TableReady(vm, DirIndex(virt), writeable, !kernel);
      var page := GetPageForAddress(virt, true, writeable, !kernel);
      ViewParts();
      MapEntry(page, phys / PAGE_SIZE, kernel, writeable, DirIndex(virt), TableIndex(virt));
      ViewParts();
    }

    /** The same entry, with the fields assigned in the order of `AllocatePage`. */
    method BackEntry(at: Word, frame: Frame, kernel: bool, writeable: bool, ghost i: int, ghost j: int)
      requires SelfMapped(machine.mem, machine.cr3) && Slot(i) && Index(j) && at == EntryAddress(i, j)
      requires var e := machine.mem[machine.cr3][i];
        e.present && e.frame < |machine.mem| && e.frame != machine.cr3
      modifies machine`mem
      ensures var m := old(machine.mem);
        var t := m[machine.cr3][i].frame;
        machine.mem == Put(m, t, j, MappedEntry(m[t][j], frame, kernel, writeable))
    {
      ghost var m: Phys := machine.mem;
      ghost var t := m[machine.cr3][i].frame;
      ghost var d: Entry := m[t][j];
      PutSame(m, t, j);
      AssignPage(at, (e: Entry) => e.(present := true), i, j, m, d);
      d := d.(present := true);
      AssignPage(at, (e: Entry) => e.(writable := writeable), i, j, m, d);
      d := d.(writable := writeable);
      AssignPage(at, (e: Entry) => e.(user := !kernel), i, j, m, d);
      d := d.(user := !kernel);
      AssignPage(at, (e: Entry) => e.(frame := frame), i, j, m, d);
    }

    /** Back the entry at `page` with a fresh frame, if there is one. */
    method AllocatePage(page: Word, kernel: bool, writeable: bool, ghost i: int, ghost j: int)
      requires Editable(View()) && Slot(i) && Index(j) && Small(machine.mem, machine.cr3, i)
      requires page == EntryAddress(i, j)
      modifies machine`mem, phyMem, phyMem.memoryArray
      ensures View() == PageGiven(old(View()), old(machine.mem)[machine.cr3][i].frame, j, kernel, writeable)
      ensures AllocatedAddr(old(View()).frames) != 0 ==>
        PageWritten(old(View()), View(), i, j, AllocatedAddr(old(View()).frames) / PAGE_SIZE, kernel, writeable)
    {
      hide *;
      ghost var vm := View();
      ViewParts();
      GiveWritten(vm, i, j, kernel, writeable);
      GiveParts(vm, i, j, kernel, writeable);
      var p := phyMem.AllocateBlock();
      if p == 0 {
        ViewParts();
        return;
      }
      BackEntry(page, p / PAGE_SIZE, kernel, writeable, i, j);
      ViewParts();
    }

    /** One round of the loop of `Init`: `AllocatePage(GetPageForAddress(va, true), true, true)`. */
    method BackPage(va: Word)
      requires var p := va / PAGE_SIZE;
        Editable(View()) && Page(p) && Mappable(View(), p / ENTRIES)
      modifies machine`mem, phyMem, phyMem.memoryArray
      ensures View() == HeapPage(old(View()), va / PAGE_SIZE)
    {
      hide *;
      ghost var vm := View();
      ViewParts();
      ghost var p := va / PAGE_SIZE;
      RoundParts(vm, va);
      var page := GetPageForAddress(va, true, true, false);
      ViewParts();
      AllocatePage(page, true, true, p / ENTRIES, p % ENTRIES);
    }

    /** The heap-window loop of `Init`, for the `total` pages from page `first` on. */
    method MapWindow(start: Word, end: Word, ghost first: int, ghost total: nat)
      requires Editable(View()) && RangeMappable(View(), first, total)
      requires start == first * PAGE_SIZE && end == (first + total) * PAGE_SIZE
      modifies machine`mem, phyMem, phyMem.memoryArray
      ensures View() == WindowLoop(old(View()), first, total)
    {
      hide *;
      ghost var vm0, n := View(), 0;
      LoopStart(vm0, first, total);
      var i := start;
      while i < end
        invariant 0 <= n <= total && i == (first + n) * PAGE_SIZE
        invariant RangeMappable(vm0, first, n) && View() == WindowLoop(vm0, first, n)
      {
        PageSteps(first, total, n);
        LoopNext(vm0, first, n, total);
        BackPage(i);
        n := n + 1;
        i := i + PAGE_SIZE;
      }
      PageSteps(first, total, n);
    }

    method MapHeapWindow()
      requires Editable(View()) && RangeMappable(View(), HEAP_START / PAGE_SIZE, HEAP_SIZE / PAGE_SIZE)
      modifies machine`mem, phyMem, phyMem.memoryArray
      ensures View() == WindowLoop(old(View()), HEAP_START / PAGE_SIZE, HEAP_SIZE / PAGE_SIZE)
    {
      MapWindow(HEAP_START, HEAP_START + HEAP_SIZE, HEAP_START / PAGE_SIZE, HEAP_SIZE / PAGE_SIZE);
    }

    /** `boot_pt` is the virtual address of the boot directory, inside the kernel's 4 MB
        page. Its last entry is stored through that address. */
    method InstallSelfMap(boot: Word)
      requires BootDirectory(machine.mem, machine.cr3) && machine.cr3 < ENTRIES
      requires boot == KERNEL_OFFSET + machine.cr3 * PAGE_SIZE
      modifies machine`mem
      ensures machine.mem == Put(old(machine.mem), machine.cr3, SELF, SelfEntry(machine.cr3))
    {
      var lastPDE := EMPTY.(frame := (boot - KERNEL_OFFSET) / PAGE_SIZE, writable := true, large := false,
                            present := true);
      var at := boot + 4 * SELF;
      KernelPageReach(machine.mem, machine.cr3, SELF);
      machine.Store(at, lastPDE, machine.cr3, SELF);
    }

    /** Lines of `Init` up to the end of the heap-window loop, from the boot directory. */
    method InitHeapWindow(boot: Word)
      requires Bootable(View()) && machine.cr3 < ENTRIES
      requires boot == KERNEL_OFFSET + machine.cr3 * PAGE_SIZE
      modifies machine`mem, phyMem, phyMem.memoryArray
      ensures var vm := old(View());
        && Walkable(vm) && Editable(SelfMappedBoot(vm))
        && RangeMappable(SelfMappedBoot(vm), HEAP_START / PAGE_SIZE, HEAP_SIZE / PAGE_SIZE)
        && View() == WindowLoop(SelfMappedBoot(vm), HEAP_START / PAGE_SIZE, HEAP_SIZE / PAGE_SIZE)
      ensures 4096 + 4 <= FreeFrames(old(View()).frames) ==> WindowReady(old(View()), View())
    {
      hide *;
      ghost var vm := View();
      BootWindow(vm);
      ViewParts();
      BootParts(vm);
      InstallSelfMap(boot);
      ViewParts();
      MapHeapWindow();
    }

    /** The physical address `malloc` reports for the virtual address `addr`: the hardware
        walk of that address, whenever the page is mapped. The read needs the self-map and
        a table for the address, not a sound paging state. */
    method PhysicalAddress(addr: Word) returns (phys: int)
      requires SelfMapped(machine.mem, machine.cr3) && Small(machine.mem, machine.cr3, DirIndex(addr))
      requires machine.mem[machine.cr3][DirIndex(addr)].frame < |machine.mem|
      modifies machine`mem, phyMem, phyMem.memoryArray
      ensures View() == old(View())
      ensures var walk := Walk(old(machine.mem), machine.cr3, addr); walk.Some? ==> walk == Some(phys)
    {
      ghost var m: Phys := machine.mem;
      ghost var dir, i, j := machine.cr3, DirIndex(addr), TableIndex(addr);
      ghost var t := m[dir][i].frame;
      SmallWalk(m, dir, addr);
      var at := GetPageForAddress(addr, false, true, false);
      assert machine.mem == m;
      WindowReach(m, dir, i, j);
      var page := machine.Load(at, t, j);
      phys := page.frame * PAGE_SIZE + addr % PAGE_SIZE;
    }
  }
}
