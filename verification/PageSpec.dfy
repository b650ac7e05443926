/** What the kernel's page-table edits do to the hardware walk. */
module PageSpec {
  import opened Words
  import opened FrameSpec
  import opened PageWalk

  /** Physical memory, the frame of the directory, and the frame allocator. */
  datatype Vm = Vm(mem: Phys, dir: int, frames: Frames)

  /** Directory slots below the window. */
  predicate Slot(i: int) { 0 <= i < SELF }

  predicate Index(j: int) { 0 <= j < ENTRIES }

  /** Slot `i` holds a table (not a 4 MB page). */
  predicate Small(m: Phys, dir: int, i: int)
    requires 0 <= dir < |m| && 0 <= i < |m[dir]|
  {
    m[dir][i].present && !m[dir][i].large
  }

  /** The directory maps itself, and every table of another slot has a frame of its own. */
  ghost predicate Tables(m: Phys, dir: int)
  {
    && SelfMapped(m, dir)
    && (forall i | Slot(i) && Small(m, dir, i) :: m[dir][i].frame < |m| && m[dir][i].frame != dir)
    && (forall i, k | Slot(i) && Slot(k) && i != k && Small(m, dir, i) && Small(m, dir, k) ::
          m[dir][i].frame != m[dir][k].frame)
  }

  /** Frame `f` holds no table of `m`. */
  ghost predicate NoTable(m: Phys, dir: int, f: int)
    requires Framed(m) && 0 <= dir < |m|
  {
    f != dir && forall i | Slot(i) && Small(m, dir, i) :: m[dir][i].frame != f
  }

  /** The paging state the kernel keeps: sound tables, all of them (and frame 0) marked
      used in a bitmap whose counter is right and whose frames are all in memory. */
  ghost predicate VmInv(vm: Vm)
  {
    && Tables(vm.mem, vm.dir) && Accounted(vm.frames) && vm.frames.max <= |vm.mem|
    && 0 < vm.dir < |vm.frames.bits| && vm.frames.bits[0] && vm.frames.bits[vm.dir]
    && forall i | Slot(i) && Small(vm.mem, vm.dir, i) ::
         vm.mem[vm.dir][i].frame < |vm.frames.bits| && vm.frames.bits[vm.mem[vm.dir][i].frame]
  }

  // ---------- the edits ----------

  function Put(m: Phys, f: int, j: int, e: Entry): Phys
    requires 0 <= f < |m| && 0 <= j < |m[f]|
  {
    m[f := m[f][j := e]]
  }

  /** A directory entry that now points at the table in frame `f`. */
  function LinkedEntry(e: Entry, f: Frame, readWrite: bool, user: bool): Entry
  {
    e.(frame := f, writable := readWrite, user := user, large := false, present := true)
  }

  /** A table entry that now maps frame `f`. */
  function MappedEntry(e: Entry, f: Frame, kernel: bool, writeable: bool): Entry
  {
    e.(frame := f, writable := writeable, user := !kernel, present := true)
  }

  function Zeros(): (z: seq<Entry>)
    ensures |z| == ENTRIES && forall j :: 0 <= j < ENTRIES ==> z[j] == EMPTY
  {
    seq(ENTRIES, _ => EMPTY)
  }

  function CreatedTable(m: Phys, dir: int, i: int, f: Frame, readWrite: bool, user: bool): Phys
    requires 0 <= dir < |m| && 0 <= i < |m[dir]| && f < |m|
  {
    Put(m, dir, i, LinkedEntry(m[dir][i], f, readWrite, user))[f := Zeros()]
  }

  /** The frame `AllocateBlock` would hand out (0 when it fails). */
  function NextFrame(s: Frames): (f: Frame)
    requires Sized(s)
  {
    AllocatedAddr(s) / PAGE_SIZE
  }

  /** `GetPageForAddress(.., true, ..)`: make sure slot `i` has a table. */
  function WithTable(vm: Vm, i: int, readWrite: bool, user: bool): Vm
    requires Framed(vm.mem) && 0 <= vm.dir < |vm.mem| && Slot(i) && Sized(vm.frames)
    requires NextFrame(vm.frames) < |vm.mem|
  {
    if vm.mem[vm.dir][i].present then vm
    else Vm(CreatedTable(vm.mem, vm.dir, i, NextFrame(vm.frames), readWrite, user), vm.dir, Allocated(vm.frames))
  }

  // ---------- a new table ----------

  /** Making a fresh zeroed table keeps the tables sound exactly when its frame held no
      table before: this is what a failed allocation breaks once frame 0 is in use. */
  lemma CreateKeepsTables(m: Phys, dir: int, i: int, f: Frame, readWrite: bool, user: bool)
    requires Tables(m, dir) && Slot(i) && !m[dir][i].present && f < |m| && f != dir
    ensures Framed(CreatedTable(m, dir, i, f, readWrite, user))
    ensures Tables(CreatedTable(m, dir, i, f, readWrite, user), dir) <==> NoTable(m, dir, f)
  {
    var m' := CreatedTable(m, dir, i, f, readWrite, user);
    assert forall k | 0 <= k < ENTRIES && k != i :: m'[dir][k] == m[dir][k];
    assert m'[dir][i].frame == f && Small(m', dir, i);
    if !NoTable(m, dir, f) {
      var k :| Slot(k) && Small(m, dir, k) && m[dir][k].frame == f;
      assert Small(m', dir, k) && m'[dir][k].frame == m'[dir][i].frame;
    }
  }

  /** ...and then changes no translation: slot `i` was unmapped and stays unmapped. */
  lemma CreateKeepsWalk(m: Phys, dir: int, i: int, f: Frame, readWrite: bool, user: bool, i2: int, j2: int)
    requires Tables(m, dir) && Slot(i) && !m[dir][i].present && f < |m| && NoTable(m, dir, f)
    requires Slot(i2) && Index(j2)
    ensures Framed(CreatedTable(m, dir, i, f, readWrite, user))
    ensures WalkPage(CreatedTable(m, dir, i, f, readWrite, user), dir, i2, j2) == WalkPage(m, dir, i2, j2)
  {
    var m' := CreatedTable(m, dir, i, f, readWrite, user);
    CreateKeepsTables(m, dir, i, f, readWrite, user);
    if i2 != i && Small(m, dir, i2) {
      assert m'[m[dir][i2].frame] == m[m[dir][i2].frame];
    }
  }

  // ---------- a table entry ----------

  lemma PutKeepsTables(m: Phys, dir: int, i: int, j: int, e: Entry)
    requires Tables(m, dir) && Slot(i) && Small(m, dir, i) && Index(j)
    ensures Tables(Put(m, m[dir][i].frame, j, e), dir)
    ensures Put(m, m[dir][i].frame, j, e)[dir] == m[dir]
  {
  }

  /** Writing entry `j` of the table in slot `i` changes the translation of that page only. */
  lemma PutWalk(m: Phys, dir: int, i: int, j: int, e: Entry, i2: int, j2: int)
    requires Tables(m, dir) && Slot(i) && Small(m, dir, i) && Index(j) && Slot(i2) && Index(j2)
    ensures Framed(Put(m, m[dir][i].frame, j, e))
    ensures WalkPage(Put(m, m[dir][i].frame, j, e), dir, i2, j2)
         == if i2 == i && j2 == j then (if e.present then Some(e.frame) else None) else WalkPage(m, dir, i2, j2)
  {
  }

  // ---------- mapping one page ----------

  /** Slot `i` is empty or holds a table: the caller's side of every mapping call. */
  predicate Mappable(vm: Vm, i: int)
    requires 0 <= vm.dir < |vm.mem| && 0 <= i < |vm.mem[vm.dir]|
  {
    vm.mem[vm.dir][i].present ==> Small(vm.mem, vm.dir, i)
  }

  /** A table that slot `i` lacks gets a frame that holds no other table: the allocator
      has one, or the frame 0 it falls back to is not a table yet. */
  ghost predicate TableToSpare(vm: Vm, i: int)
    requires Framed(vm.mem) && 0 <= vm.dir < |vm.mem| && Slot(i)
  {
    !vm.mem[vm.dir][i].present ==> Allocates(vm.frames) || NoTable(vm.mem, vm.dir, 0)
  }

  function FreeFrames(s: Frames): int
  {
    s.max - s.used
  }

  /** The frame the allocator hands out is in memory, was not in use, and is not frame 0. */
  lemma NextFrameFresh(vm: Vm)
    requires VmInv(vm)
    ensures NextFrame(vm.frames) < |vm.mem|
    ensures Allocates(vm.frames) ==>
      var f := NextFrame(vm.frames);
      && 0 < f < vm.frames.max && !vm.frames.bits[f] && NoTable(vm.mem, vm.dir, f)
      && Allocated(vm.frames).bits == vm.frames.bits[f := true]
      && FreeFrames(Allocated(vm.frames)) == FreeFrames(vm.frames) - 1
    ensures FreeFrames(vm.frames) > 0 ==> Allocates(vm.frames)
    ensures Accounted(Allocated(vm.frames))
  {
    AllocateAccounts(vm.frames);
    CountBound(vm.frames.bits, vm.frames.max);
  }

  lemma WithTableInv(vm: Vm, i: int, readWrite: bool, user: bool)
    requires VmInv(vm) && Slot(i) && Mappable(vm, i) && TableToSpare(vm, i)
    ensures NextFrame(vm.frames) < |vm.mem|
    ensures var v := WithTable(vm, i, readWrite, user);
      && VmInv(v) && v.dir == vm.dir && |v.mem| == |vm.mem| && Small(v.mem, v.dir, i)
      && (forall k | Slot(k) && k != i :: v.mem[v.dir][k] == vm.mem[vm.dir][k])
      && |v.frames.bits| == |vm.frames.bits| && v.frames.max == vm.frames.max
      && (forall f | 0 <= f < |vm.frames.bits| && vm.frames.bits[f] :: v.frames.bits[f])
      && FreeFrames(v.frames) == FreeFrames(vm.frames)
         - if !vm.mem[vm.dir][i].present && Allocates(vm.frames) then 1 else 0
  {
    NextFrameFresh(vm);
    if !vm.mem[vm.dir][i].present {
      var f := NextFrame(vm.frames);
      CreateKeepsTables(vm.mem, vm.dir, i, f, readWrite, user);
      assert forall k | 0 <= k < ENTRIES && k != i ::
          CreatedTable(vm.mem, vm.dir, i, f, readWrite, user)[vm.dir][k] == vm.mem[vm.dir][k];
    }
  }

  lemma WithTableWalk(vm: Vm, i: int, readWrite: bool, user: bool, i2: int, j2: int)
    requires VmInv(vm) && Slot(i) && Mappable(vm, i) && TableToSpare(vm, i) && Slot(i2) && Index(j2)
    ensures NextFrame(vm.frames) < |vm.mem| && VmInv(WithTable(vm, i, readWrite, user))
    ensures WalkPage(WithTable(vm, i, readWrite, user).mem, vm.dir, i2, j2) == WalkPage(vm.mem, vm.dir, i2, j2)
  {
    WithTableInv(vm, i, readWrite, user);
    NextFrameFresh(vm);
    if !vm.mem[vm.dir][i].present {
      CreateKeepsWalk(vm.mem, vm.dir, i, NextFrame(vm.frames), readWrite, user, i2, j2);
    }
  }

  /** `MapVirtualToPhysical` for page `j` of slot `i` and frame `g`. */
  function Mapped(vm: Vm, i: int, j: int, g: Frame, kernel: bool, writeable: bool): Vm
    requires Framed(vm.mem) && 0 <= vm.dir < |vm.mem| && Slot(i) && Index(j) && Sized(vm.frames)
    requires NextFrame(vm.frames) < |vm.mem|
    requires vm.mem[vm.dir][i].present ==> vm.mem[vm.dir][i].frame < |vm.mem|
  {
    var v := WithTable(vm, i, writeable, !kernel);
    var t := if vm.mem[vm.dir][i].present then vm.mem[vm.dir][i].frame else NextFrame(vm.frames);
    v.(mem := Put(v.mem, t, j, MappedEntry(v.mem[t][j], g, kernel, writeable)))
  }

  lemma MapKeepsInv(vm: Vm, i: int, j: int, g: Frame, kernel: bool, writeable: bool)
    requires VmInv(vm) && Slot(i) && Index(j) && Mappable(vm, i) && TableToSpare(vm, i)
    ensures NextFrame(vm.frames) < |vm.mem| && VmInv(Mapped(vm, i, j, g, kernel, writeable))
  {
    WithTableInv(vm, i, writeable, !kernel);
    var v := WithTable(vm, i, writeable, !kernel);
    var t := v.mem[v.dir][i].frame;
    PutKeepsTables(v.mem, v.dir, i, j, MappedEntry(v.mem[t][j], g, kernel, writeable));
  }

  /** Mapping a page is a map update of the hardware walk: that page goes to the given
      frame, and every other page outside the window translates as before, including
      those of a slot whose table had to be made. */
  lemma MapRefinesUpdate(vm: Vm, i: int, j: int, g: Frame, kernel: bool, writeable: bool, i2: int, j2: int)
    requires VmInv(vm) && Slot(i) && Index(j) && Mappable(vm, i) && TableToSpare(vm, i) && Slot(i2) && Index(j2)
    ensures NextFrame(vm.frames) < |vm.mem| && VmInv(Mapped(vm, i, j, g, kernel, writeable))
    ensures WalkPage(Mapped(vm, i, j, g, kernel, writeable).mem, vm.dir, i2, j2)
         == if i2 == i && j2 == j then Some(g) else WalkPage(vm.mem, vm.dir, i2, j2)
  {
    MapKeepsInv(vm, i, j, g, kernel, writeable);
    WithTableInv(vm, i, writeable, !kernel);
    WithTableWalk(vm, i, writeable, !kernel, i2, j2);
    var v := WithTable(vm, i, writeable, !kernel);
    var t := v.mem[v.dir][i].frame;
    PutWalk(v.mem, v.dir, i, j, MappedEntry(v.mem[t][j], g, kernel, writeable), i2, j2);
  }

  /** `GetPageForAddress` does not look at the allocator's null: with no frame left it puts
      the new table in frame 0, and if frame 0 already is the table of another slot the two
      slots share every translation from then on. */
  lemma FailedAllocationAliases(vm: Vm, i: int, j: int, g: Frame, kernel: bool, writeable: bool, k: int, j2: int)
    requires VmInv(vm) && Slot(i) && Index(j) && !vm.mem[vm.dir][i].present && !Allocates(vm.frames)
    requires Slot(k) && Small(vm.mem, vm.dir, k) && vm.mem[vm.dir][k].frame == 0 && Index(j2)
    ensures NextFrame(vm.frames) == 0 && k != i
    ensures var m := Mapped(vm, i, j, g, kernel, writeable).mem;
      && Framed(m) && !Tables(m, vm.dir)
      && WalkPage(m, vm.dir, k, j2) == WalkPage(m, vm.dir, i, j2) == (if j2 == j then Some(g) else None)
  {
    var m: Phys := Mapped(vm, i, j, g, kernel, writeable).mem;
    assert m[vm.dir][i].frame == 0 == m[vm.dir][k].frame;
    assert Small(m, vm.dir, i) && Small(m, vm.dir, k);
  }

  lemma FirstInFrameZero(vm: Vm, k: int, j1: int, g1: Frame, kernel: bool, writeable: bool, i: int)
    requires VmInv(vm) && !Allocates(vm.frames) && NoTable(vm.mem, vm.dir, 0)
    requires Slot(k) && Slot(i) && i != k && !vm.mem[vm.dir][k].present && !vm.mem[vm.dir][i].present && Index(j1)
    ensures NextFrame(vm.frames) == 0 < |vm.mem|
    ensures var v := Mapped(vm, k, j1, g1, kernel, writeable);
      && v.dir == vm.dir && v.frames == vm.frames && Framed(v.mem) && |v.mem| == |vm.mem|
      && Small(v.mem, v.dir, k) && v.mem[v.dir][k].frame == 0 && !v.mem[v.dir][i].present
  {
  }

  /** Two mappings are enough for that: from any sound state with no frame left, frame 0 not a
      table and slots `k` and `i` empty, the first puts the table of `k` in frame 0 and leaves a
      sound state, and the second makes `i` share it and wipes out the first mapping. */
  lemma FailedTwiceAliases(vm: Vm, k: int, j1: int, g1: Frame, i: int, j: int, g: Frame, kernel: bool,
                           writeable: bool, j2: int)
    requires VmInv(vm) && !Allocates(vm.frames) && NoTable(vm.mem, vm.dir, 0)
    requires Slot(k) && Slot(i) && i != k && !vm.mem[vm.dir][k].present && !vm.mem[vm.dir][i].present
    requires Index(j1) && Index(j) && Index(j2)
    ensures NextFrame(vm.frames) == 0
    ensures var v := Mapped(vm, k, j1, g1, kernel, writeable);
      && VmInv(v) && WalkPage(v.mem, v.dir, k, j1) == Some(g1) && NextFrame(v.frames) == 0
      && !v.mem[v.dir][i].present
      && var m := Mapped(v, i, j, g, kernel, writeable).mem;
      && Framed(m) && !Tables(m, vm.dir)
      && WalkPage(m, vm.dir, k, j2) == WalkPage(m, vm.dir, i, j2) == (if j2 == j then Some(g) else None)
  {
    MapRefinesUpdate(vm, k, j1, g1, kernel, writeable, k, j1);
    var v := Mapped(vm, k, j1, g1, kernel, writeable);
    FirstInFrameZero(vm, k, j1, g1, kernel, writeable, i);
    FailedAllocationAliases(v, i, j, g, kernel, writeable, k, j2);
  }

  /** Mapping keeps the paging state sound exactly when a needed table has a frame to itself. */
  lemma MapSound(vm: Vm, i: int, j: int, g: Frame, kernel: bool, writeable: bool)
    requires VmInv(vm) && Slot(i) && Index(j) && Mappable(vm, i)
    ensures NextFrame(vm.frames) < |vm.mem|
    ensures VmInv(Mapped(vm, i, j, g, kernel, writeable)) <==> TableToSpare(vm, i)
  {
    NextFrameFresh(vm);
    if TableToSpare(vm, i) {
      MapKeepsInv(vm, i, j, g, kernel, writeable);
    } else {
      var k :| Slot(k) && Small(vm.mem, vm.dir, k) && vm.mem[vm.dir][k].frame == 0;
      FailedAllocationAliases(vm, i, j, g, kernel, writeable, k, j);
    }
  }

  // ---------- backing one page ----------

  /** `AllocatePage` on entry `j` of the table in frame `t`: no mapping when the allocator returns null,
      be it that no frame is left or that frame 0 was handed out. */
  function PageGiven(vm: Vm, t: int, j: int, kernel: bool, writeable: bool): Vm
    requires 0 <= t < |vm.mem| && 0 <= j < |vm.mem[t]| && Sized(vm.frames)
  {
    if AllocatedAddr(vm.frames) == 0 then vm.(frames := Allocated(vm.frames))
    else
      var e := MappedEntry(vm.mem[t][j], NextFrame(vm.frames), kernel, writeable);
      Vm(Put(vm.mem, t, j, e), vm.dir, Allocated(vm.frames))
  }

  /** Pages are numbered through the whole address space. */
  predicate Page(p: int) { 0 <= p < SELF * ENTRIES }

  ghost predicate Walkable(vm: Vm) { Framed(vm.mem) && 0 <= vm.dir < |vm.mem| }

  function PageFrame(vm: Vm, p: int): Option<int>
    requires Walkable(vm) && Page(p)
  {
    WalkPage(vm.mem, vm.dir, p / ENTRIES, p % ENTRIES)
  }

  lemma VmParts(vm: Vm)
    requires VmInv(vm)
    ensures Walkable(vm) && Sized(vm.frames)
  {
  }

  /** Giving a frame to one entry of a table. */
  lemma GivenInv(vm: Vm, i: int, j: int, kernel: bool, writeable: bool)
    requires VmInv(vm) && Slot(i) && Index(j) && Small(vm.mem, vm.dir, i) && Allocates(vm.frames)
    ensures var t, g := vm.mem[vm.dir][i].frame, NextFrame(vm.frames);
      var v := PageGiven(vm, t, j, kernel, writeable);
      && VmInv(v) && v.dir == vm.dir && v.mem[v.dir] == vm.mem[vm.dir] && |v.mem| == |vm.mem|
      && WalkPage(v.mem, v.dir, i, j) == Some(g)
      && g < vm.frames.max && !vm.frames.bits[g] && NoTable(v.mem, v.dir, g)
      && v.frames.bits == vm.frames.bits[g := true] && v.frames.max == vm.frames.max
      && FreeFrames(v.frames) == FreeFrames(vm.frames) - 1
  {
    NextFrameFresh(vm);
    var t, g := vm.mem[vm.dir][i].frame, NextFrame(vm.frames);
    PutKeepsTables(vm.mem, vm.dir, i, j, MappedEntry(vm.mem[t][j], g, kernel, writeable));
  }

  lemma GivenWalk(vm: Vm, i: int, j: int, kernel: bool, writeable: bool, i2: int, j2: int)
    requires VmInv(vm) && Slot(i) && Index(j) && Small(vm.mem, vm.dir, i) && Allocates(vm.frames)
    requires Slot(i2) && Index(j2) && !(i2 == i && j2 == j)
    ensures var v := PageGiven(vm, vm.mem[vm.dir][i].frame, j, kernel, writeable);
      VmInv(v) && WalkPage(v.mem, vm.dir, i2, j2) == WalkPage(vm.mem, vm.dir, i2, j2)
  {
    GivenInv(vm, i, j, kernel, writeable);
    var t, g := vm.mem[vm.dir][i].frame, NextFrame(vm.frames);
    PutWalk(vm.mem, vm.dir, i, j, MappedEntry(vm.mem[t][j], g, kernel, writeable), i2, j2);
  }

  lemma WalkIsPage(vm: Vm, va: Word)
    requires Walkable(vm) && Slot(DirIndex(va))
    ensures Page(va / PAGE_SIZE)
    ensures DirIndex(va) == va / PAGE_SIZE / ENTRIES && TableIndex(va) == va / PAGE_SIZE % ENTRIES
    ensures Walk(vm.mem, vm.dir, va) == match PageFrame(vm, va / PAGE_SIZE)
                                        case None => None
                                        case Some(f) => Some(f * PAGE_SIZE + va % PAGE_SIZE)
  {
    assert DirIndex(va) == va / PAGE_SIZE / ENTRIES && TableIndex(va) == va / PAGE_SIZE % ENTRIES;
  }

  lemma SmallWalk(m: Phys, dir: int, va: Word)
    requires Framed(m) && 0 <= dir < |m| && Small(m, dir, DirIndex(va)) && m[dir][DirIndex(va)].frame < |m|
    ensures var e := m[m[dir][DirIndex(va)].frame][TableIndex(va)];
      Walk(m, dir, va) == if e.present then Some(e.frame * PAGE_SIZE + va % PAGE_SIZE) else None
  {
  }

  // ---------- edits of any paging state ----------

  /** The paging state can be edited through the window, whether its tables are sound or not. */
  ghost predicate Editable(vm: Vm)
  {
    && SelfMapped(vm.mem, vm.dir) && Accounted(vm.frames) && vm.frames.max <= |vm.mem|
    && 0 < vm.dir < |vm.frames.bits| && vm.frames.bits[vm.dir]
    && forall i | Slot(i) && Small(vm.mem, vm.dir, i) ::
         vm.mem[vm.dir][i].frame < |vm.mem| && vm.mem[vm.dir][i].frame != vm.dir
  }

  lemma SoundEditable(vm: Vm)
    requires VmInv(vm)
    ensures Editable(vm)
  {
  }

  lemma EditableParts(vm: Vm)
    requires Editable(vm)
    ensures Walkable(vm) && Sized(vm.frames) && SelfMapped(vm.mem, vm.dir)
    ensures vm.frames.used != vm.frames.max ==> ScanStays(vm.frames)
    ensures var f := NextFrame(vm.frames);
      f == AllocatedAddr(vm.frames) / PAGE_SIZE < |vm.mem| && f != vm.dir
    ensures Accounted(Allocated(vm.frames)) && vm.dir < |Allocated(vm.frames).bits|
    ensures Allocated(vm.frames).bits[vm.dir] && Allocated(vm.frames).max == vm.frames.max
    ensures |Allocated(vm.frames).bits| == |vm.frames.bits|
  {
    AllocateAccounts(vm.frames);
  }

  lemma CreateEditable(vm: Vm, i: int, readWrite: bool, user: bool)
    requires Editable(vm) && Slot(i) && Mappable(vm, i)
    ensures NextFrame(vm.frames) < |vm.mem| && Framed(vm.mem) && Sized(vm.frames)
    ensures var v := WithTable(vm, i, readWrite, user);
      && Editable(v) && v.dir == vm.dir && |v.mem| == |vm.mem| && Small(v.mem, v.dir, i)
      && (forall k | Slot(k) && k != i :: v.mem[v.dir][k] == vm.mem[vm.dir][k])
  {
    EditableParts(vm);
    if !vm.mem[vm.dir][i].present {
      var m: Phys := CreatedTable(vm.mem, vm.dir, i, NextFrame(vm.frames), readWrite, user);
      assert forall k | 0 <= k < ENTRIES && k != i :: m[vm.dir][k] == vm.mem[vm.dir][k];
    }
  }

  lemma GiveEditable(vm: Vm, i: int, j: int, kernel: bool, writeable: bool)
    requires Editable(vm) && Slot(i) && Index(j) && Small(vm.mem, vm.dir, i)
    ensures Framed(vm.mem) && Sized(vm.frames) && vm.mem[vm.dir][i].frame < |vm.mem|
    ensures var v := PageGiven(vm, vm.mem[vm.dir][i].frame, j, kernel, writeable);
      Editable(v) && v.dir == vm.dir && |v.mem| == |vm.mem| && v.mem[v.dir] == vm.mem[vm.dir]
  {
    EditableParts(vm);
  }
}
