/** The heap's words as physical memory: a store at a heap address is an update of one word of the
    flat array the heap code works on, and no store there disturbs the page tables. */
module HeapMemory {
  import opened Words
  import opened FrameSpec
  import opened PageWalk
  import opened PageSpec
  import opened BootPaging

  /** The heap lies inside the `n` pages from page `first` on, each mapped through a table to a
      frame of its own. */
  ghost predicate Backs(vm: Vm, first: int, n: nat, lo: int, hi: int)
  {
    && VmInv(vm) && 0 <= first && first + n <= SELF * ENTRIES
    && OwnFrames(vm, first, n) && SmallPages(vm, first, n)
    && first * PAGE_SIZE <= lo && hi <= (first + n) * PAGE_SIZE
  }

  /** `Init` makes room for the kernel heap. */
  lemma WindowBacks(vm0: Vm, vm: Vm)
    requires WindowReady(vm0, vm)
    ensures Backs(vm, HEAP_START / PAGE_SIZE, HEAP_SIZE / PAGE_SIZE, HEAP_START, HEAP_START + HEAP_SIZE)
  {
  }

  /** An aligned address of the heap. */
  predicate HeapAddress(lo: int, hi: int, a: int)
  {
    0 <= lo <= a < hi < TWO32 && a % 4 == 0
  }

  lemma PageOf(a: int, first: int, n: nat, lo: int, hi: int)
    requires first * PAGE_SIZE <= lo <= a < hi <= (first + n) * PAGE_SIZE
    ensures first <= a / PAGE_SIZE < first + n
  {
  }

  lemma SlotOfPage(a: Word)
    requires a / PAGE_SIZE < SELF * ENTRIES
    ensures Slot(DirIndex(a))
  {
  }

  lemma FrameParts(f: int, a: Word)
    requires a % 4 == 0
    ensures (f * PAGE_SIZE + a % PAGE_SIZE) / PAGE_SIZE == f
    ensures (f * PAGE_SIZE + a % PAGE_SIZE) % PAGE_SIZE == a % PAGE_SIZE && (f * PAGE_SIZE + a % PAGE_SIZE) % 4 == 0
  {
  }

  /** The frame and index a heap address reaches: a frame of memory that holds no table. */
  lemma HeapReach(vm: Vm, first: int, n: nat, lo: int, hi: int, a: Word) returns (f: int, j: int)
    requires Backs(vm, first, n, lo, hi) && HeapAddress(lo, hi, a)
    ensures Reach(vm.mem, vm.dir, a) == Some((f, j)) && Page(a / PAGE_SIZE)
    ensures PageFrame(vm, a / PAGE_SIZE) == Some(f) && j == a % PAGE_SIZE / 4
    ensures Walkable(vm) && 0 <= f < |vm.mem| && Index(j) && j < |vm.mem[f]| && NoTable(vm.mem, vm.dir, f)
  {
    PageOf(a, first, n, lo, hi);
    SlotOfPage(a);
    WalkIsPage(vm, a);
    f, j := PageFrame(vm, a / PAGE_SIZE).value, a % PAGE_SIZE / 4;
    FrameParts(f, a);
  }

  // ---------- a store leaves the tables alone ----------

  /** Writing a frame that holds no table changes no translation, inside the window or outside. */
  lemma DataWalk(vm: Vm, f: int, j: int, e: Entry, i2: int, j2: int)
    requires VmInv(vm) && 0 <= f < |vm.mem| && Index(j) && NoTable(vm.mem, vm.dir, f)
    requires 0 <= i2 < ENTRIES && Index(j2)
    ensures Framed(Put(vm.mem, f, j, e))
    ensures WalkPage(Put(vm.mem, f, j, e), vm.dir, i2, j2) == WalkPage(vm.mem, vm.dir, i2, j2)
  {
    var m: Phys := Put(vm.mem, f, j, e);
    assert m[vm.dir] == vm.mem[vm.dir];
    if i2 != SELF && Small(vm.mem, vm.dir, i2) {
      assert Slot(i2);
    }
  }

  lemma DataKeepsInv(vm: Vm, f: int, j: int, e: Entry)
    requires VmInv(vm) && 0 <= f < |vm.mem| && Index(j) && NoTable(vm.mem, vm.dir, f)
    ensures VmInv(vm.(mem := Put(vm.mem, f, j, e)))
    ensures Put(vm.mem, f, j, e)[vm.dir] == vm.mem[vm.dir]
  {
  }

  lemma DataKeepsBacks(vm: Vm, first: int, n: nat, lo: int, hi: int, f: int, j: int, e: Entry)
    requires Backs(vm, first, n, lo, hi) && 0 <= f < |vm.mem| && Index(j) && NoTable(vm.mem, vm.dir, f)
    ensures Backs(vm.(mem := Put(vm.mem, f, j, e)), first, n, lo, hi)
  {
    var v := vm.(mem := Put(vm.mem, f, j, e));
    DataKeepsInv(vm, f, j, e);
    forall p | Page(p) ensures PageFrame(v, p) == PageFrame(vm, p) {
      DataWalk(vm, f, j, e, p / ENTRIES, p % ENTRIES);
    }
  }

  // ---------- the flat view ----------

  /** The word the processor reads at `a`. */
  ghost function WordAt(vm: Vm, a: Word): int
  {
    match Reach(vm.mem, vm.dir, a)
    case None => 0
    case Some((f, j)) => if 0 <= f < |vm.mem| && 0 <= j < |vm.mem[f]| then Encode(vm.mem[f][j]) else 0
  }

  /** A store at a heap address: where it lands. */
  ghost predicate Stored(vm: Vm, a: Word, e: Entry, v: Vm)
  {
    match Reach(vm.mem, vm.dir, a)
    case None => false
    case Some((f, j)) => 0 <= f < |vm.mem| && 0 <= j < |vm.mem[f]| && v == vm.(mem := Put(vm.mem, f, j, e))
  }

  lemma BacksInv(vm: Vm, first: int, n: nat, lo: int, hi: int)
    requires Backs(vm, first, n, lo, hi)
    ensures VmInv(vm)
  {
  }

  lemma PagePart(a: int, q: int, r: int)
    requires a == 4096 * q + r && 0 <= r < 4096
    ensures a / 4096 == q && a % 4096 == r
  {
  }

  lemma AddressOf(a: Word)
    requires a % 4 == 0
    ensures a == 4096 * (a / 4096) + 4 * (a % 4096 / 4)
  {
    var w := a / 4;
    var q, s := w / 1024, w % 1024;
    PagePart(a, q, 4 * s);
  }

  lemma AddressParts(lo: int, hi: int, a: Word, b: Word)
    requires HeapAddress(lo, hi, a) && HeapAddress(lo, hi, b) && a != b
    ensures PAGE_SIZE == 4096 && (a / 4096 != b / 4096 || a % 4096 / 4 != b % 4096 / 4)
  {
    AddressOf(a);
    AddressOf(b);
  }

  lemma FramesApart(vm: Vm, first: int, n: nat, lo: int, hi: int, a: Word, b: Word)
    requires Backs(vm, first, n, lo, hi) && HeapAddress(lo, hi, a) && HeapAddress(lo, hi, b)
    requires Walkable(vm) && Page(a / PAGE_SIZE) && Page(b / PAGE_SIZE) && a / PAGE_SIZE != b / PAGE_SIZE
    ensures PageFrame(vm, a / PAGE_SIZE) != PageFrame(vm, b / PAGE_SIZE)
  {
    hide VmInv, SmallPages, PageFrame;
    PageOf(a, first, n, lo, hi);
    PageOf(b, first, n, lo, hi);
    var p, q := a / PAGE_SIZE, b / PAGE_SIZE;
    if p < q { assert PageFrame(vm, p) != PageFrame(vm, q); } else { assert PageFrame(vm, q) != PageFrame(vm, p); }
  }

  lemma HeapApart(vm: Vm, first: int, n: nat, lo: int, hi: int, a: Word, b: Word)
    requires Backs(vm, first, n, lo, hi) && HeapAddress(lo, hi, a) && HeapAddress(lo, hi, b) && a != b
    ensures Reach(vm.mem, vm.dir, a) != Reach(vm.mem, vm.dir, b)
  {
    hide *;
    var f, j := HeapReach(vm, first, n, lo, hi, a);
    var g, k := HeapReach(vm, first, n, lo, hi, b);
    AddressParts(lo, hi, a, b);
    if a / 4096 != b / 4096 {
      FramesApart(vm, first, n, lo, hi, a, b);
    }
  }

  /** A store at a heap address changes no translation, keeps the paging state sound, and changes
      the word read at that address and at no other of the heap. */
  lemma HeapStore(vm: Vm, first: int, n: nat, lo: int, hi: int, a: Word, e: Entry, v: Vm, b: Word)
    requires Backs(vm, first, n, lo, hi) && HeapAddress(lo, hi, a) && HeapAddress(lo, hi, b) && Stored(vm, a, e, v)
    ensures Backs(v, first, n, lo, hi) && v.dir == vm.dir && v.frames == vm.frames
    ensures forall i2, j2 | 0 <= i2 < ENTRIES && Index(j2) ::
              WalkPage(v.mem, v.dir, i2, j2) == WalkPage(vm.mem, vm.dir, i2, j2)
    ensures WordAt(v, b) == if b == a then Encode(e) else WordAt(vm, b)
  {
    hide Backs, VmInv, HeapAddress, Reach, Encode, NoTable, WalkPage;
    var f, j := HeapReach(vm, first, n, lo, hi, a);
    var g, k := HeapReach(vm, first, n, lo, hi, b);
    BacksInv(vm, first, n, lo, hi);
    DataKeepsBacks(vm, first, n, lo, hi, f, j, e);
    forall i2, j2 | 0 <= i2 < ENTRIES && Index(j2)
      ensures WalkPage(v.mem, v.dir, i2, j2) == WalkPage(vm.mem, vm.dir, i2, j2)
    {
      DataWalk(vm, f, j, e, i2, j2);
    }
    var g', k' := HeapReach(v, first, n, lo, hi, b);
    if a != b {
      HeapApart(vm, first, n, lo, hi, a, b);
    }
  }

  /** The words of [lo, lo + 4 n) as the processor reads them: the array `ram` of the heap. */
  ghost function FlatWords(vm: Vm, lo: Word, n: nat): (w: seq<int>)
    requires lo + 4 * n <= TWO32
    ensures |w| == n
  {
    seq(n, k requires 0 <= k < n => WordAt(vm, lo + 4 * k))
  }

  lemma FlatAt(vm: Vm, lo: Word, n: nat, k: nat)
    requires lo + 4 * n <= TWO32 && k < n
    ensures FlatWords(vm, lo, n)[k] == WordAt(vm, lo + 4 * k)
  {
  }

  lemma WordsInHeap(lo: Word, words: nat, k: nat)
    requires lo % 4 == 0 && k < words && lo + 4 * words < TWO32
    ensures TWO32 == 0x1_0000_0000 && HeapAddress(lo, lo + 4 * words, lo + 4 * k)
  {
  }

  /** A store at a heap address is an update of that array, and of nothing else. */
  lemma StoreIsUpdate(vm: Vm, first: int, n: nat, lo: Word, words: nat, k: nat, e: Entry, v: Vm)
    requires lo % 4 == 0 && k < words && lo + 4 * words < TWO32
    requires Backs(vm, first, n, lo, lo + 4 * words) && Stored(vm, lo + 4 * k, e, v)
    ensures Backs(v, first, n, lo, lo + 4 * words)
    ensures FlatWords(v, lo, words) == FlatWords(vm, lo, words)[k := Encode(e)]
  {
    hide *;
    WordsInHeap(lo, words, k);
    HeapStore(vm, first, n, lo, lo + 4 * words, lo + 4 * k, e, v, lo + 4 * k);
    forall m | 0 <= m < words
      ensures FlatWords(v, lo, words)[m] == FlatWords(vm, lo, words)[k := Encode(e)][m]
    {
      WordsInHeap(lo, words, m);
      HeapStore(vm, first, n, lo, lo + 4 * words, lo + 4 * k, e, v, lo + 4 * m);
      FlatAt(v, lo, words, m);
      FlatAt(vm, lo, words, m);
    }
  }
}
