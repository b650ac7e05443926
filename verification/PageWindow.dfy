/** The heap-window loop of `Init`: what it maps, what it costs, and what it leaves unmapped when the
    frames run out. */
module PageWindow {
  import opened Words
  import opened FrameSpec
  import opened PageWalk
  import opened PageSpec

  /** One round of the loop of `Init`: a table for the slot of page `p` and a frame for `p`, each if
      there is one. */
  ghost function HeapPage(vm: Vm, p: int): Vm
    requires Editable(vm) && Page(p) && Mappable(vm, p / ENTRIES)
  {
    CreateEditable(vm, p / ENTRIES, true, false);
    var v := WithTable(vm, p / ENTRIES, true, false);
    GiveEditable(v, p / ENTRIES, p % ENTRIES, true, true);
    PageGiven(v, v.mem[v.dir][p / ENTRIES].frame, p % ENTRIES, true, true)
  }

  lemma HeapPageEditable(vm: Vm, p: int)
    requires Editable(vm) && Page(p) && Mappable(vm, p / ENTRIES)
    ensures var v := HeapPage(vm, p);
      && Editable(v) && Walkable(v) && v.dir == vm.dir && |v.mem| == |vm.mem|
      && forall k | Slot(k) && Mappable(vm, k) :: Mappable(v, k)
  {
    CreateEditable(vm, p / ENTRIES, true, false);
    GiveEditable(WithTable(vm, p / ENTRIES, true, false), p / ENTRIES, p % ENTRIES, true, true);
  }

  /** No slot of the `n` pages from page `first` on holds a 4 MB page. */
  ghost predicate RangeMappable(vm: Vm, first: int, n: nat)
  {
    && Walkable(vm) && 0 <= first && first + n <= SELF * ENTRIES
    && forall p | first <= p < first + n :: Mappable(vm, p / ENTRIES)
  }

  /** `v` can be edited where `vm` could. */
  ghost predicate Succeeds(vm: Vm, v: Vm)
    requires Walkable(vm)
  {
    && Editable(v) && Walkable(v) && v.dir == vm.dir && |v.mem| == |vm.mem|
    && forall k | Slot(k) && Mappable(vm, k) :: Mappable(v, k)
  }

  lemma LoopStep(vm: Vm, v: Vm, first: int, n: nat)
    requires Walkable(vm) && RangeMappable(vm, first, n) && n > 0 && Succeeds(vm, v)
    ensures var p := first + n - 1;
      && Editable(v) && Page(p) && Walkable(v) && Mappable(v, p / ENTRIES) && Succeeds(vm, HeapPage(v, p))
      && RangeMappable(vm, first, n - 1)
  {
    hide Editable, HeapPage;
    var p := first + n - 1;
    assert Mappable(vm, p / ENTRIES);
    HeapPageEditable(v, p);
  }

  /** The heap-window loop of `Init` for those pages, whatever the number of free frames. */
  ghost function WindowLoop(vm: Vm, first: int, n: nat): (v: Vm)
    requires Editable(vm) && RangeMappable(vm, first, n)
    ensures Succeeds(vm, v)
    decreases n
  {
    if n == 0 then vm
    else
      var v := WindowLoop(vm, first, n - 1);
      LoopStep(vm, v, first, n);
      HeapPage(v, first + n - 1)
  }

  /** Slots of [lo, hi) without a table. */
  ghost function Absent(vm: Vm, lo: int, hi: int): int
    requires Walkable(vm) && 0 <= lo && hi <= SELF
    decreases hi - lo
  {
    if hi <= lo then 0
    else Absent(vm, lo, hi - 1) + if vm.mem[vm.dir][hi - 1].present then 0 else 1
  }

  /** The slot after the last one that pages first, .., first + n - 1 touch. */
  function SlotEnd(first: int, n: nat): int
  {
    if n == 0 then first / ENTRIES else (first + n - 1) / ENTRIES + 1
  }

  /** Page `p` was given the frame it is mapped to: one that was free before, is neither a
      table nor the directory, and is in use now. */
  ghost predicate Backed(vm0: Vm, vm: Vm, p: int)
    requires Walkable(vm) && Page(p)
  {
    && PageFrame(vm, p).Some?
    && var g := PageFrame(vm, p).value;
    && 0 <= g < |vm.frames.bits| == |vm0.frames.bits| && vm.frames.bits[g] && !vm0.frames.bits[g]
    && g < vm.frames.max && NoTable(vm.mem, vm.dir, g)
  }

  /** The `n` pages from `first` on are backed, each by a frame of its own, and every other
      page translates as in `vm0`. */
  ghost predicate PagesMapped(vm0: Vm, vm: Vm, first: int, n: nat)
    requires Walkable(vm0) && Walkable(vm) && 0 <= first && first + n <= SELF * ENTRIES
  {
    && (forall p | first <= p < first + n :: Backed(vm0, vm, p))
    && (forall p, q | first <= p < q < first + n :: PageFrame(vm, p) != PageFrame(vm, q))
    && (forall p | Page(p) && !(first <= p < first + n) :: PageFrame(vm, p) == PageFrame(vm0, p))
  }

  predicate UsedKept(s: Frames, t: Frames)
  {
    |t.bits| == |s.bits| && t.max == s.max && forall f | 0 <= f < |s.bits| && s.bits[f] :: t.bits[f]
  }

  /** The slots those pages touch have tables, and no other slot has changed. */
  ghost predicate SlotsMapped(vm0: Vm, vm: Vm, first: int, n: nat)
    requires Walkable(vm0) && Walkable(vm)
  {
    && (forall k | Slot(k) && !(first / ENTRIES <= k < SlotEnd(first, n)) ::
          vm.mem[vm.dir][k] == vm0.mem[vm0.dir][k])
    && (forall k | first / ENTRIES <= k < SlotEnd(first, n) :: Slot(k) && Small(vm.mem, vm.dir, k))
  }

  /** `vm` is `vm0` after the loop gave frames to the `n` pages from `first` on: one frame
      for each page and one for each table that was missing, nothing else. */
  ghost predicate HeapMapped(vm0: Vm, vm: Vm, first: int, n: nat)
  {
    && 0 <= first && first + n <= SELF * ENTRIES
    && VmInv(vm0) && VmInv(vm) && vm.dir == vm0.dir
    && PagesMapped(vm0, vm, first, n) && SlotsMapped(vm0, vm, first, n)
    && |vm.frames.bits| == |vm0.frames.bits| && vm.frames.max == vm0.frames.max
    && (forall f | 0 <= f < |vm.frames.bits| && vm0.frames.bits[f] :: vm.frames.bits[f])
    && FreeFrames(vm.frames) == FreeFrames(vm0.frames) - n - Absent(vm0, first / ENTRIES, SlotEnd(first, n))
  }

  /** The range can be mapped: no large page in its slots, and a free frame for every page
      and for every missing table. */
  ghost predicate HeapFits(vm: Vm, first: int, n: nat)
  {
    && VmInv(vm) && 0 <= first && first + n <= SELF * ENTRIES
    && (forall k | first / ENTRIES <= k < SlotEnd(first, n) :: Mappable(vm, k))
    && n + Absent(vm, first / ENTRIES, SlotEnd(first, n)) <= FreeFrames(vm.frames)
  }

  /** Frames a round of the loop takes. */
  predicate Affords(vm: Vm, i: int)
    requires 0 <= vm.dir < |vm.mem| && 0 <= i < |vm.mem[vm.dir]|
  {
    FreeFrames(vm.frames) >= if vm.mem[vm.dir][i].present then 1 else 2
  }

  lemma HeapPageInv(vm: Vm, p: int)
    requires VmInv(vm) && Page(p) && Mappable(vm, p / ENTRIES) && Affords(vm, p / ENTRIES)
    ensures TableToSpare(vm, p / ENTRIES)
    ensures var i, v := p / ENTRIES, HeapPage(vm, p);
      && VmInv(v) && v.dir == vm.dir && Small(v.mem, v.dir, i)
      && (forall k | Slot(k) && k != i :: v.mem[v.dir][k] == vm.mem[vm.dir][k])
      && FreeFrames(v.frames) == FreeFrames(vm.frames) - (if vm.mem[vm.dir][i].present then 1 else 2)
  {
    hide MappedEntry, LinkedEntry, CreatedTable, Zeros;
    var i := p / ENTRIES;
    NextFrameFresh(vm);
    WithTableInv(vm, i, true, false);
    var v := WithTable(vm, i, true, false);
    NextFrameFresh(v);
    GivenInv(v, i, p % ENTRIES, true, true);
  }

  lemma HeapPageBacked(vm: Vm, p: int)
    requires VmInv(vm) && Page(p) && Mappable(vm, p / ENTRIES) && Affords(vm, p / ENTRIES)
    ensures TableToSpare(vm, p / ENTRIES)
    ensures var v := HeapPage(vm, p);
      Walkable(v) && Backed(vm, v, p) && UsedKept(vm.frames, v.frames)
  {
    hide VmInv, PageGiven, WithTable, NoTable, WalkPage, Allocated, Allocates, NextFrame, Mappable;
    SoundEditable(vm);
    var i := p / ENTRIES;
    VmParts(vm);
    NextFrameFresh(vm);
    WithTableInv(vm, i, true, false);
    var v := WithTable(vm, i, true, false);
    VmParts(v);
    NextFrameFresh(v);
    GivenInv(v, i, p % ENTRIES, true, true);
    VmParts(HeapPage(vm, p));
  }

  lemma PageParts(p: int, q: int)
    requires Page(p) && Page(q) && p != q
    ensures !(p / ENTRIES == q / ENTRIES && p % ENTRIES == q % ENTRIES)
  {
  }

  lemma HeapPageWalk(vm: Vm, p: int, q: int)
    requires VmInv(vm) && Page(p) && Mappable(vm, p / ENTRIES) && Affords(vm, p / ENTRIES)
    requires Page(q) && q != p
    ensures TableToSpare(vm, p / ENTRIES) && VmInv(HeapPage(vm, p)) && HeapPage(vm, p).dir == vm.dir
    ensures PageFrame(HeapPage(vm, p), q) == PageFrame(vm, q)
  {
    var i := p / ENTRIES;
    HeapPageInv(vm, p);
    PageParts(p, q);
    WithTableInv(vm, i, true, false);
    WithTableWalk(vm, i, true, false, q / ENTRIES, q % ENTRIES);
    var v := WithTable(vm, i, true, false);
    NextFrameFresh(v);
    GivenWalk(v, i, p % ENTRIES, true, true, q / ENTRIES, q % ENTRIES);
  }

  lemma {:induction false} AbsentGrows(vm: Vm, lo: int, mid: int, hi: int)
    requires Framed(vm.mem) && 0 <= vm.dir < |vm.mem| && 0 <= lo <= mid <= hi <= SELF
    ensures Absent(vm, lo, mid) <= Absent(vm, lo, hi)
    decreases hi
  {
    if mid < hi { AbsentGrows(vm, lo, mid, hi - 1); }
  }

  /** The slot of the next page is the last one so far or the one after it. */
  lemma SlotOfNext(first: int, n: nat)
    requires 0 <= first && first + n < SELF * ENTRIES
    ensures var i := (first + n) / ENTRIES;
      && Slot(i) && SlotEnd(first, n + 1) == i + 1
      && (SlotEnd(first, n) == i + 1 || SlotEnd(first, n) == i)
      && first / ENTRIES <= i
  {
  }

  /** A round is affordable when the whole range was. */
  lemma RoundAffordable(vm0: Vm, vm: Vm, first: int, n: nat, total: nat)
    requires HeapFits(vm0, first, total) && n < total && HeapMapped(vm0, vm, first, n)
    ensures Walkable(vm) && VmInv(vm) && Page(first + n)
    ensures Mappable(vm, (first + n) / ENTRIES) && Affords(vm, (first + n) / ENTRIES)
  {
    var i := (first + n) / ENTRIES;
    SlotOfNext(first, n);
    SlotOfNext(first, total - 1);
    assert Mappable(vm0, i);
    AbsentGrows(vm0, first / ENTRIES, i + 1, SlotEnd(first, total));
  }

  /** A used frame that holds no table does not become a table. */
  lemma HeapPageNoTable(vm: Vm, p: int, f: int)
    requires VmInv(vm) && Page(p) && Mappable(vm, p / ENTRIES) && Affords(vm, p / ENTRIES)
    requires 0 <= f < |vm.frames.bits| && vm.frames.bits[f] && NoTable(vm.mem, vm.dir, f)
    ensures TableToSpare(vm, p / ENTRIES) && VmInv(HeapPage(vm, p))
    ensures NoTable(HeapPage(vm, p).mem, vm.dir, f)
  {
    var i := p / ENTRIES;
    NextFrameFresh(vm);
    HeapPageInv(vm, p);
    WithTableInv(vm, i, true, false);
    var v := WithTable(vm, i, true, false);
    NextFrameFresh(v);
    GivenInv(v, i, p % ENTRIES, true, true);
    assert HeapPage(vm, p).mem[vm.dir] == v.mem[vm.dir];
    assert v.mem[vm.dir][i].frame != f;
  }

  /** What a round of the loop for page `p` turns `vm` into. */
  ghost predicate Round(vm: Vm, p: int, v: Vm)
    requires Walkable(vm) && Page(p)
  {
    var i := p / ENTRIES;
    && Walkable(v) && v.dir == vm.dir && Backed(vm, v, p)
    && (forall q | Page(q) && q != p :: PageFrame(v, q) == PageFrame(vm, q))
    && Small(v.mem, v.dir, i)
    && (forall k | Slot(k) && k != i :: v.mem[v.dir][k] == vm.mem[vm.dir][k])
    && UsedKept(vm.frames, v.frames)
    && (forall f | 0 <= f < |vm.frames.bits| && vm.frames.bits[f] && NoTable(vm.mem, vm.dir, f) ::
          NoTable(v.mem, v.dir, f))
    && FreeFrames(v.frames) == FreeFrames(vm.frames) - (if vm.mem[vm.dir][i].present then 1 else 2)
  }

  lemma HeapPageIsRound(vm: Vm, p: int)
    requires VmInv(vm) && Page(p) && Mappable(vm, p / ENTRIES) && Affords(vm, p / ENTRIES)
    ensures TableToSpare(vm, p / ENTRIES) && VmInv(HeapPage(vm, p)) && Round(vm, p, HeapPage(vm, p))
  {
    HeapPageInv(vm, p);
    HeapPageBacked(vm, p);
    forall q | Page(q) && q != p ensures PageFrame(HeapPage(vm, p), q) == PageFrame(vm, q) {
      HeapPageWalk(vm, p, q);
    }
    forall f | 0 <= f < |vm.frames.bits| && vm.frames.bits[f] && NoTable(vm.mem, vm.dir, f)
      ensures NoTable(HeapPage(vm, p).mem, vm.dir, f)
    {
      HeapPageNoTable(vm, p, f);
    }
  }

  /** A page backed earlier stays backed across a round, by another frame than the new page. */
  lemma BackedStays(vm0: Vm, vm: Vm, v: Vm, p: int, q: int)
    requires Walkable(vm) && Page(p) && Page(q) && p != q && Round(vm, p, v) && Backed(vm0, vm, q)
    ensures Backed(vm0, v, q) && PageFrame(v, q) != PageFrame(v, p)
  {
    var g := PageFrame(vm, q).value;
    assert NoTable(v.mem, v.dir, g);
  }

  lemma PagesStep(vm0: Vm, vm: Vm, v: Vm, first: int, n: nat)
    requires Walkable(vm0) && Walkable(vm) && 0 <= first && Page(first + n) && PagesMapped(vm0, vm, first, n)
    requires Round(vm, first + n, v) && UsedKept(vm0.frames, vm.frames)
    ensures PagesMapped(vm0, v, first, n + 1)
  {
    var p := first + n;
    assert Backed(vm0, v, p);
    forall q | first <= q < p ensures Backed(vm0, v, q) && PageFrame(v, q) != PageFrame(v, p) {
      BackedStays(vm0, vm, v, p, q);
    }
  }

  lemma SlotsStep(vm0: Vm, vm: Vm, v: Vm, first: int, n: nat)
    requires Walkable(vm0) && Walkable(vm) && 0 <= first && Page(first + n) && SlotsMapped(vm0, vm, first, n)
    requires Round(vm, first + n, v)
    ensures SlotsMapped(vm0, v, first, n + 1)
  {
    SlotOfNext(first, n);
  }

  lemma AbsentStep(vm0: Vm, vm: Vm, v: Vm, first: int, n: nat)
    requires Walkable(vm0) && Walkable(vm) && 0 <= first && Page(first + n) && SlotsMapped(vm0, vm, first, n)
    requires Round(vm, first + n, v) && vm.dir == vm0.dir
    ensures SlotEnd(first, n + 1) <= SELF
    ensures FreeFrames(vm.frames) - FreeFrames(v.frames)
         == 1 + Absent(vm0, first / ENTRIES, SlotEnd(first, n + 1)) - Absent(vm0, first / ENTRIES, SlotEnd(first, n))
  {
    SlotOfNext(first, n);
    var i := (first + n) / ENTRIES;
    if SlotEnd(first, n) == i + 1 { assert Small(vm.mem, vm.dir, i); }
  }

  /** One more round of the loop extends what is mapped by one page. */
  lemma RoundStep(vm0: Vm, vm: Vm, v: Vm, first: int, n: nat)
    requires HeapMapped(vm0, vm, first, n) && Page(first + n) && Walkable(vm)
    requires Round(vm, first + n, v) && VmInv(v)
    ensures HeapMapped(vm0, v, first, n + 1)
  {
    PagesStep(vm0, vm, v, first, n);
    SlotsStep(vm0, vm, v, first, n);
    AbsentStep(vm0, vm, v, first, n);
  }

  lemma HeapMappedStart(vm: Vm, first: int, total: nat)
    requires HeapFits(vm, first, total)
    ensures HeapMapped(vm, vm, first, 0)
  {
  }

  // ---------- the whole loop ----------

  lemma RangeParts(vm: Vm, first: int, n: nat)
    requires RangeMappable(vm, first, n)
    ensures Walkable(vm) && 0 <= first && first + n <= SELF * ENTRIES
  {
  }

  lemma RangePrefix(vm: Vm, first: int, n: nat, total: nat)
    requires RangeMappable(vm, first, total) && n <= total
    ensures RangeMappable(vm, first, n)
  {
  }

  lemma SlotInRange(first: int, total: nat, p: int)
    requires 0 <= first <= p < first + total
    ensures first / ENTRIES <= p / ENTRIES < SlotEnd(first, total)
  {
  }

  lemma FitsRange(vm: Vm, first: int, total: nat)
    requires HeapFits(vm, first, total)
    ensures VmInv(vm) && Editable(vm) && RangeMappable(vm, first, total)
  {
    SoundEditable(vm);
    forall p | first <= p < first + total ensures Mappable(vm, p / ENTRIES) {
      SlotInRange(first, total, p);
    }
  }

  /** With enough frames the loop maps the whole range. */
  lemma {:induction false} LoopFits(vm: Vm, first: int, n: nat, total: nat)
    requires HeapFits(vm, first, total) && n <= total
    ensures Editable(vm) && RangeMappable(vm, first, n)
    ensures HeapMapped(vm, WindowLoop(vm, first, n), first, n)
    decreases n
  {
    hide HeapFits, HeapMapped, RangeMappable, Editable, HeapPage, VmInv, Round;
    FitsRange(vm, first, total);
    RangePrefix(vm, first, n, total);
    if n == 0 {
      HeapMappedStart(vm, first, total);
    } else {
      LoopFits(vm, first, n - 1, total);
      var v := WindowLoop(vm, first, n - 1);
      LoopStep(vm, v, first, n);
      RoundAffordable(vm, v, first, n - 1, total);
      HeapPageIsRound(v, first + n - 1);
      RoundStep(vm, v, HeapPage(v, first + n - 1), first, n - 1);
    }
  }

  lemma NoneFree(vm: Vm)
    requires VmInv(vm)
    ensures FreeFrames(vm.frames) >= 0
    ensures Allocates(vm.frames) <==> FreeFrames(vm.frames) > 0
  {
    AllocateAccounts(vm.frames);
    CountBound(vm.frames.bits, vm.frames.max);
  }

  /** A page that cannot be backed stays unmapped, and no frame is left. */
  lemma ShortRound(vm: Vm, p: int)
    requires VmInv(vm) && Editable(vm) && Page(p) && Mappable(vm, p / ENTRIES) && !Affords(vm, p / ENTRIES)
    requires PageFrame(vm, p).None?
    ensures Walkable(HeapPage(vm, p)) && !Allocates(HeapPage(vm, p).frames) && PageFrame(HeapPage(vm, p), p).None?
  {
    var i, j := p / ENTRIES, p % ENTRIES;
    NoneFree(vm);
    NextFrameFresh(vm);
    if !vm.mem[vm.dir][i].present && Allocates(vm.frames) {
      WithTableInv(vm, i, true, false);
      WithTableWalk(vm, i, true, false, i, j);
      NoneFree(WithTable(vm, i, true, false));
    }
  }

  /** Once no frame is left, a page that is not mapped never gets mapped. */
  lemma ExhaustedRound(vm: Vm, p: int, q: int)
    requires Editable(vm) && Walkable(vm) && !Allocates(vm.frames) && Page(p) && Mappable(vm, p / ENTRIES)
    requires Page(q) && PageFrame(vm, q).None?
    ensures var v := HeapPage(vm, p);
      Walkable(v) && v.frames == vm.frames && PageFrame(v, q).None?
  {
    CreateEditable(vm, p / ENTRIES, true, false);
  }

  /** A page of the range is not mapped and no frame is left to map it. */
  ghost predicate Starved(v: Vm, first: int, n: nat)
  {
    && Walkable(v) && 0 <= first && first + n <= SELF * ENTRIES
    && !Allocates(v.frames) && exists p :: first <= p < first + n && PageFrame(v, p).None?
  }

  lemma StarvedStep(v: Vm, first: int, n: nat)
    requires Editable(v) && Page(first + n) && Mappable(v, (first + n) / ENTRIES) && Starved(v, first, n)
    ensures Starved(HeapPage(v, first + n), first, n + 1)
  {
    var q :| first <= q < first + n && PageFrame(v, q).None?;
    ExhaustedRound(v, first + n, q);
  }

  lemma MappedParts(vm: Vm, v: Vm, first: int, n: nat)
    requires HeapMapped(vm, v, first, n)
    ensures VmInv(vm) && VmInv(v) && Walkable(vm) && Walkable(v)
    ensures forall p | Page(p) && !(first <= p < first + n) :: PageFrame(v, p) == PageFrame(vm, p)
  {
  }

  lemma ShortStep(vm: Vm, v: Vm, first: int, n: nat)
    requires HeapMapped(vm, v, first, n) && Editable(v) && Page(first + n) && Mappable(v, (first + n) / ENTRIES)
    requires PageFrame(vm, first + n).None?
    ensures HeapMapped(vm, HeapPage(v, first + n), first, n + 1) || Starved(HeapPage(v, first + n), first, n + 1)
  {
    hide HeapPage, Editable, VmInv, Round, Affords;
    MappedParts(vm, v, first, n);
    if Affords(v, (first + n) / ENTRIES) {
      HeapPageIsRound(v, first + n);
      RoundStep(vm, v, HeapPage(v, first + n), first, n);
    } else {
      ShortRound(v, first + n);
    }
  }

  lemma OneMore(vm: Vm, v: Vm, first: int, n: nat)
    requires Walkable(vm) && Editable(v) && Page(first + n) && Walkable(v) && Mappable(v, (first + n) / ENTRIES)
    requires HeapMapped(vm, v, first, n) || Starved(v, first, n)
    requires PageFrame(vm, first + n).None?
    ensures HeapMapped(vm, HeapPage(v, first + n), first, n + 1) || Starved(HeapPage(v, first + n), first, n + 1)
  {
    hide *;
    if HeapMapped(vm, v, first, n) { ShortStep(vm, v, first, n); } else { StarvedStep(v, first, n); }
  }

  lemma EmptyMapped(vm: Vm, first: int)
    requires VmInv(vm) && 0 <= first <= SELF * ENTRIES
    ensures HeapMapped(vm, vm, first, 0)
  {
  }

  /** The loop either maps everything so far or has run out of frames before some page. */
  lemma {:induction false} LoopOrStarve(vm: Vm, first: int, n: nat, total: nat)
    requires VmInv(vm) && Editable(vm) && RangeMappable(vm, first, total) && n <= total
    requires forall p | first <= p < first + total :: PageFrame(vm, p).None?
    ensures RangeMappable(vm, first, n)
    ensures var v := WindowLoop(vm, first, n); HeapMapped(vm, v, first, n) || Starved(v, first, n)
    decreases n
  {
    hide HeapMapped, VmInv, Editable, HeapPage, Starved, PageFrame, RangeMappable;
    RangePrefix(vm, first, n, total);
    RangeParts(vm, first, total);
    if n == 0 {
      EmptyMapped(vm, first);
    } else {
      LoopOrStarve(vm, first, n - 1, total);
      LoopStep(vm, WindowLoop(vm, first, n - 1), first, n);
      OneMore(vm, WindowLoop(vm, first, n - 1), first, n - 1);
    }
  }

  lemma MappedFits(vm: Vm, v: Vm, first: int, total: nat)
    requires HeapMapped(vm, v, first, total) && RangeMappable(vm, first, total)
    ensures HeapFits(vm, first, total)
  {
    NoneFree(v);
    forall k | first / ENTRIES <= k < SlotEnd(first, total) ensures Mappable(vm, k) {
      var p := if k == first / ENTRIES then first else k * ENTRIES;
      assert p / ENTRIES == k && first <= p < first + total;
    }
  }

  lemma MappedAll(vm: Vm, v: Vm, first: int, total: nat)
    requires HeapMapped(vm, v, first, total)
    ensures Walkable(v) && forall p | first <= p < first + total :: PageFrame(v, p).Some?
  {
    forall p | first <= p < first + total ensures PageFrame(v, p).Some? {
      assert Backed(vm, v, p);
    }
  }

  /** From a sound state in which the range is not mapped yet, the loop ends with every page of it
      mapped exactly when there is a frame for each page and each missing table. With fewer it goes on
      to its end all the same, silently leaving pages out. */
  lemma LoopMapsIff(vm: Vm, first: int, total: nat)
    requires VmInv(vm) && RangeMappable(vm, first, total)
    requires forall p | first <= p < first + total :: PageFrame(vm, p).None?
    ensures Editable(vm) && Walkable(WindowLoop(vm, first, total))
    ensures (forall p | first <= p < first + total :: PageFrame(WindowLoop(vm, first, total), p).Some?)
            <==> HeapFits(vm, first, total)
    ensures HeapFits(vm, first, total) ==> HeapMapped(vm, WindowLoop(vm, first, total), first, total)
  {
    hide HeapFits, HeapMapped, HeapPage, VmInv, RangeMappable, Editable, PageFrame, WindowLoop;
    SoundEditable(vm);
    LoopOrStarve(vm, first, total, total);
    var v := WindowLoop(vm, first, total);
    if HeapMapped(vm, v, first, total) {
      MappedFits(vm, v, first, total);
      MappedAll(vm, v, first, total);
    } else if HeapFits(vm, first, total) {
      LoopFits(vm, first, total, total);
    }
  }
}
