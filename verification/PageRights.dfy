/** What the page-table edits leave in memory, entry by entry, and the rights the hardware then grants. */
module PageRights {
  import opened Words
  import opened FrameSpec
  import opened PageWalk
  import opened PageSpec

  // ---------- the entries ----------

  /** The bits no call of the kernel assigns. */
  predicate RestKept(e: Entry, o: Entry)
  {
    && e.writeThrough == o.writeThrough && e.cacheOff == o.cacheOff && e.accessed == o.accessed
    && e.dirty == o.dirty && e.global == o.global && e.spare == o.spare
  }

  /** Directory entry `i` of `v`: as in `vm` if that slot had a table, else a link to the next frame
      with the rights asked for. */
  ghost predicate SlotLinked(vm: Vm, v: Vm, i: int, readWrite: bool, user: bool)
  {
    && Walkable(vm) && Walkable(v) && v.dir == vm.dir && |v.mem| == |vm.mem| && Slot(i) && Sized(vm.frames)
    && var o, d := vm.mem[vm.dir][i], v.mem[v.dir][i];
    if o.present then d == o
    else
      && d.present && !d.large && d.frame == NextFrame(vm.frames)
      && d.writable == readWrite && d.user == user && RestKept(d, o)
  }

  /** Entry `j` of the table of slot `i` maps frame `g` with the rights asked for, and that is all that
      changed: the table's other entries are those it had, or empty in a new one, and no other frame
      differs but the directory, in entry `i` only. */
  ghost predicate PageWritten(vm: Vm, v: Vm, i: int, j: int, g: int, kernel: bool, writeable: bool)
  {
    && Walkable(vm) && Walkable(v) && v.dir == vm.dir && |v.mem| == |vm.mem| && Slot(i) && Index(j)
    && Small(v.mem, v.dir, i) && v.mem[v.dir][i].frame < |v.mem| && v.mem[v.dir][i].frame != v.dir
    && (forall k | 0 <= k < ENTRIES && k != i :: v.mem[v.dir][k] == vm.mem[vm.dir][k])
    && var t := v.mem[v.dir][i].frame;
    && (vm.mem[vm.dir][i].present ==> vm.mem[vm.dir][i].frame == t)
    && var row: seq<Entry> := if vm.mem[vm.dir][i].present then vm.mem[t] else Zeros();
    && var e := v.mem[t][j];
    && e.present && e.frame == g && e.user == !kernel && e.writable == writeable
    && RestKept(e, row[j]) && e.large == row[j].large
    && (forall k | Index(k) && k != j :: v.mem[t][k] == row[k])
    && (forall f | 0 <= f < |vm.mem| && f != t && f != vm.dir :: v.mem[f] == vm.mem[f])
  }

  lemma TableLinked(vm: Vm, i: int, readWrite: bool, user: bool)
    requires Editable(vm) && Slot(i) && Mappable(vm, i)
    ensures Walkable(vm) && Sized(vm.frames) && NextFrame(vm.frames) < |vm.mem|
    ensures SlotLinked(vm, WithTable(vm, i, readWrite, user), i, readWrite, user)
  {
    CreateEditable(vm, i, readWrite, user);
    EditableParts(vm);
  }

  /** The rest of memory once slot `i` has its table. */
  lemma TableRow(vm: Vm, i: int, readWrite: bool, user: bool)
    requires Editable(vm) && Slot(i) && Mappable(vm, i)
    ensures Walkable(vm) && Sized(vm.frames) && NextFrame(vm.frames) < |vm.mem|
    ensures var v := WithTable(vm, i, readWrite, user);
      && Walkable(v) && v.dir == vm.dir && |v.mem| == |vm.mem| && Small(v.mem, v.dir, i)
      && (forall k | 0 <= k < ENTRIES && k != i :: v.mem[v.dir][k] == vm.mem[vm.dir][k])
      && var t := v.mem[v.dir][i].frame;
      && t < |v.mem| && t != v.dir
      && t == (if vm.mem[vm.dir][i].present then vm.mem[vm.dir][i].frame else NextFrame(vm.frames))
      && v.mem[t] == (if vm.mem[vm.dir][i].present then vm.mem[t] else Zeros())
      && (forall f | 0 <= f < |vm.mem| && f != t && f != vm.dir :: v.mem[f] == vm.mem[f])
  {
    EditableParts(vm);
    CreateEditable(vm, i, readWrite, user);
  }

  /** Writing one entry of a table, seen from the state before the table was there. */
  lemma EntryWritten(vm: Vm, v: Vm, i: int, j: int, g: Frame, kernel: bool, writeable: bool, frames: Frames)
    requires Walkable(vm) && Walkable(v) && v.dir == vm.dir && |v.mem| == |vm.mem| && Slot(i) && Index(j)
    requires Small(v.mem, v.dir, i) && v.mem[v.dir][i].frame < |v.mem| && v.mem[v.dir][i].frame != v.dir
    requires forall k | 0 <= k < ENTRIES && k != i :: v.mem[v.dir][k] == vm.mem[vm.dir][k]
    requires vm.mem[vm.dir][i].present ==> vm.mem[vm.dir][i].frame == v.mem[v.dir][i].frame
    requires var t := v.mem[v.dir][i].frame;
      && v.mem[t] == (if vm.mem[vm.dir][i].present then vm.mem[t] else Zeros())
      && (forall f | 0 <= f < |vm.mem| && f != t && f != vm.dir :: v.mem[f] == vm.mem[f])
    ensures var t := v.mem[v.dir][i].frame;
      var e := MappedEntry(v.mem[t][j], g, kernel, writeable);
      PageWritten(vm, Vm(Put(v.mem, t, j, e), v.dir, frames), i, j, g, kernel, writeable)
  {
    var t := v.mem[v.dir][i].frame;
    var e := MappedEntry(v.mem[t][j], g, kernel, writeable);
    var u := Vm(Put(v.mem, t, j, e), v.dir, frames);
    assert u.mem[u.dir] == v.mem[v.dir];
    assert u.mem[t] == v.mem[t][j := e];
  }

  lemma MappedIs(vm: Vm, i: int, j: int, g: Frame, kernel: bool, writeable: bool)
    requires Editable(vm) && Slot(i) && Index(j) && Mappable(vm, i)
    ensures Walkable(vm) && Sized(vm.frames) && NextFrame(vm.frames) < |vm.mem|
    ensures vm.mem[vm.dir][i].present ==> vm.mem[vm.dir][i].frame < |vm.mem|
    ensures var v := WithTable(vm, i, writeable, !kernel);
      && Walkable(v) && v.mem[v.dir][i].frame < |v.mem|
      && var t := v.mem[v.dir][i].frame;
      Mapped(vm, i, j, g, kernel, writeable)
      == Vm(Put(v.mem, t, j, MappedEntry(v.mem[t][j], g, kernel, writeable)), v.dir, v.frames)
  {
    TableRow(vm, i, writeable, !kernel);
  }

  lemma LinkedStays(vm: Vm, v: Vm, u: Vm, i: int, readWrite: bool, user: bool)
    requires SlotLinked(vm, v, i, readWrite, user) && Walkable(u) && u.dir == v.dir && |u.mem| == |v.mem|
    requires u.mem[u.dir] == v.mem[v.dir]
    ensures SlotLinked(vm, u, i, readWrite, user)
  {
  }

  lemma PutElsewhere(m: Phys, f: int, j: int, e: Entry, dir: int)
    requires Framed(m) && 0 <= f < |m| && 0 <= j < ENTRIES && f != dir && 0 <= dir < |m|
    ensures Framed(Put(m, f, j, e)) && |Put(m, f, j, e)| == |m| && Put(m, f, j, e)[dir] == m[dir]
  {
  }

  /** `MapVirtualToPhysical`, on the entries in memory. */
  lemma MapWritten(vm: Vm, i: int, j: int, g: Frame, kernel: bool, writeable: bool)
    requires Editable(vm) && Slot(i) && Index(j) && Mappable(vm, i)
    ensures Walkable(vm) && Sized(vm.frames) && NextFrame(vm.frames) < |vm.mem|
    ensures vm.mem[vm.dir][i].present ==> vm.mem[vm.dir][i].frame < |vm.mem|
    ensures var v := Mapped(vm, i, j, g, kernel, writeable);
      v.dir == vm.dir && SlotLinked(vm, v, i, writeable, !kernel) && PageWritten(vm, v, i, j, g, kernel, writeable)
  {
    hide NextFrame, WithTable, Mapped, Editable, SlotLinked, PageWritten, MappedEntry, Put, Zeros;
    TableLinked(vm, i, writeable, !kernel);
    TableRow(vm, i, writeable, !kernel);
    MappedIs(vm, i, j, g, kernel, writeable);
    var v := WithTable(vm, i, writeable, !kernel);
    var t := v.mem[v.dir][i].frame;
    PutElsewhere(v.mem, t, j, MappedEntry(v.mem[t][j], g, kernel, writeable), v.dir);
    LinkedStays(vm, v, Mapped(vm, i, j, g, kernel, writeable), i, writeable, !kernel);
    EntryWritten(vm, v, i, j, g, kernel, writeable, v.frames);
  }

  /** `AllocatePage`, when it gets a frame. */
  lemma GiveWritten(vm: Vm, i: int, j: int, kernel: bool, writeable: bool)
    requires Editable(vm) && Slot(i) && Index(j) && Small(vm.mem, vm.dir, i)
    ensures Walkable(vm) && Sized(vm.frames) && vm.mem[vm.dir][i].frame < |vm.mem|
    ensures AllocatedAddr(vm.frames) != 0 ==>
      && NextFrame(vm.frames) == AllocatedAddr(vm.frames) / PAGE_SIZE
      && PageWritten(vm, PageGiven(vm, vm.mem[vm.dir][i].frame, j, kernel, writeable), i, j,
                     NextFrame(vm.frames), kernel, writeable)
  {
    EditableParts(vm);
  }

  // ---------- the rights the hardware grants ----------

  /** What a page of slot `i` gets from a call: a right already denied by the slot's directory entry stays
      denied, because the call does not touch the entry of a table that is there. */
  function Granted(vm: Vm, i: int, g: int, kernel: bool, writeable: bool): Access
    requires 0 <= vm.dir < |vm.mem| && 0 <= i < |vm.mem[vm.dir]|
  {
    var d := vm.mem[vm.dir][i];
    if d.present then Access(g, d.writable && writeable, d.user && !kernel) else Access(g, writeable, !kernel)
  }

  lemma AccessSmall(m: Phys, dir: int, i: int, j: int)
    requires Framed(m) && 0 <= dir < |m| && Slot(i) && Index(j) && Small(m, dir, i) && m[dir][i].frame < |m|
    ensures var d, e := m[dir][i], m[m[dir][i].frame][j];
      AccessPage(m, dir, i, j)
      == if e.present then Some(Access(e.frame, d.writable && e.writable, d.user && e.user)) else None
  {
  }

  lemma AccessSame(m: Phys, n: Phys, dir: int, i: int, j: int)
    requires Framed(m) && Framed(n) && |m| == |n| && 0 <= dir < |m| && Slot(i) && Index(j)
    requires m[dir][i] == n[dir][i]
    requires Small(m, dir, i) && m[dir][i].frame < |m| ==> m[m[dir][i].frame][j] == n[m[dir][i].frame][j]
    ensures AccessPage(m, dir, i, j) == AccessPage(n, dir, i, j)
  {
  }

  lemma AccessAbsent(m: Phys, dir: int, i: int, j: int)
    requires Framed(m) && 0 <= dir < |m| && Slot(i) && Index(j) && !m[dir][i].present
    ensures AccessPage(m, dir, i, j) == None
  {
  }

  /** Over sound tables those two changes move one page, and grant it what its slot allows. */
  lemma WrittenAccess(vm: Vm, v: Vm, i: int, j: int, g: int, kernel: bool, writeable: bool, i2: int, j2: int)
    requires PageWritten(vm, v, i, j, g, kernel, writeable) && SlotLinked(vm, v, i, writeable, !kernel)
    requires Tables(v.mem, v.dir) && Slot(i2) && Index(j2)
    ensures AccessPage(v.mem, v.dir, i2, j2)
         == if i2 == i && j2 == j then Some(Granted(vm, i, g, kernel, writeable))
            else AccessPage(vm.mem, vm.dir, i2, j2)
  {
    hide AccessPage, NextFrame, RestKept;
    var t := v.mem[v.dir][i].frame;
    AccessSmall(v.mem, v.dir, i, j2);
    if i2 != i {
      assert v.mem[v.dir][i2] == vm.mem[vm.dir][i2];
      if Small(v.mem, v.dir, i2) { assert v.mem[v.dir][i2].frame != t; }
      AccessSame(vm.mem, v.mem, v.dir, i2, j2);
    } else if j2 != j {
      if vm.mem[vm.dir][i].present {
        AccessSame(vm.mem, v.mem, v.dir, i, j2);
      } else {
        AccessAbsent(vm.mem, v.dir, i, j2);
        assert v.mem[t][j2] == EMPTY;
      }
    }
  }

  /** `MapVirtualToPhysical` as an update of what the hardware grants. */
  lemma MapAccess(vm: Vm, i: int, j: int, g: Frame, kernel: bool, writeable: bool, i2: int, j2: int)
    requires VmInv(vm) && Slot(i) && Index(j) && Mappable(vm, i) && TableToSpare(vm, i) && Slot(i2) && Index(j2)
    ensures NextFrame(vm.frames) < |vm.mem| && VmInv(Mapped(vm, i, j, g, kernel, writeable))
    ensures AccessPage(Mapped(vm, i, j, g, kernel, writeable).mem, vm.dir, i2, j2)
         == if i2 == i && j2 == j then Some(Granted(vm, i, g, kernel, writeable))
            else AccessPage(vm.mem, vm.dir, i2, j2)
  {
    hide Editable, Mappable, TableToSpare, Mapped, PageWritten, SlotLinked, Granted, AccessPage, NextFrame;
    SoundEditable(vm);
    MapKeepsInv(vm, i, j, g, kernel, writeable);
    MapWritten(vm, i, j, g, kernel, writeable);
    WrittenAccess(vm, Mapped(vm, i, j, g, kernel, writeable), i, j, g, kernel, writeable, i2, j2);
  }

  /** A mapping grants all it is asked for exactly when its slot had no table yet or the directory entry
      allows as much: a user page put into a slot the kernel opened stays out of reach of user code. */
  lemma MapGrants(vm: Vm, i: int, j: int, g: Frame, kernel: bool, writeable: bool)
    requires VmInv(vm) && Slot(i) && Index(j) && Mappable(vm, i) && TableToSpare(vm, i)
    ensures NextFrame(vm.frames) < |vm.mem| && VmInv(Mapped(vm, i, j, g, kernel, writeable))
    ensures var d := vm.mem[vm.dir][i];
      AccessPage(Mapped(vm, i, j, g, kernel, writeable).mem, vm.dir, i, j) == Some(Access(g, writeable, !kernel))
      <==> !d.present || ((writeable ==> d.writable) && (!kernel ==> d.user))
  {
    MapAccess(vm, i, j, g, kernel, writeable, i, j);
  }

  lemma GivenAccess(vm: Vm, i: int, j: int, kernel: bool, writeable: bool, i2: int, j2: int)
    requires VmInv(vm) && Slot(i) && Index(j) && Small(vm.mem, vm.dir, i) && Allocates(vm.frames)
    requires Slot(i2) && Index(j2)
    ensures var v := PageGiven(vm, vm.mem[vm.dir][i].frame, j, kernel, writeable);
      && VmInv(v) && v.dir == vm.dir
      && AccessPage(v.mem, v.dir, i2, j2)
         == if i2 == i && j2 == j then Some(Granted(vm, i, NextFrame(vm.frames), kernel, writeable))
            else AccessPage(vm.mem, vm.dir, i2, j2)
  {
    hide Editable, PageGiven, PageWritten, Granted, AccessPage;
    SoundEditable(vm);
    NextFrameFresh(vm);
    GivenInv(vm, i, j, kernel, writeable);
    GiveWritten(vm, i, j, kernel, writeable);
    var v := PageGiven(vm, vm.mem[vm.dir][i].frame, j, kernel, writeable);
    WrittenAccess(vm, v, i, j, NextFrame(vm.frames), kernel, writeable, i2, j2);
  }

  lemma OpenAccess(vm: Vm, i: int, readWrite: bool, user: bool, i2: int, j2: int)
    requires VmInv(vm) && Slot(i) && Mappable(vm, i) && TableToSpare(vm, i) && Slot(i2) && Index(j2)
    ensures NextFrame(vm.frames) < |vm.mem| && VmInv(WithTable(vm, i, readWrite, user))
    ensures var v := WithTable(vm, i, readWrite, user);
      AccessPage(v.mem, vm.dir, i2, j2) == AccessPage(vm.mem, vm.dir, i2, j2)
  {
    hide Editable, WithTable, NextFrame;
    SoundEditable(vm);
    WithTableInv(vm, i, readWrite, user);
    TableRow(vm, i, readWrite, user);
    TableLinked(vm, i, readWrite, user);
    var v := WithTable(vm, i, readWrite, user);
    if i2 != i && Small(v.mem, v.dir, i2) {
      assert v.mem[v.dir][i2].frame != v.mem[v.dir][i].frame;
    }
  }

  lemma DataAccess(vm: Vm, f: int, j: int, e: Entry, i2: int, j2: int)
    requires VmInv(vm) && 0 <= f < |vm.mem| && Index(j) && NoTable(vm.mem, vm.dir, f) && Slot(i2) && Index(j2)
    ensures Framed(Put(vm.mem, f, j, e))
    ensures AccessPage(Put(vm.mem, f, j, e), vm.dir, i2, j2) == AccessPage(vm.mem, vm.dir, i2, j2)
  {
    PutElsewhere(vm.mem, f, j, e, vm.dir);
    if Small(vm.mem, vm.dir, i2) {
      assert vm.mem[vm.dir][i2].frame != f;
    }
  }
}
