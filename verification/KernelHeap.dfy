/** The kernel heap: `malloc` and `free` as pointer code over raw words, proved to
    do to the words exactly what `BlockList` says they do to the list of blocks. */
module KernelHeap {
  import opened Words
  import opened BlockList
  import opened HeapImage

  /** `align_up(num, 4)` in 32-bit arithmetic: the addition wraps. */
  function AlignUp(num: Word): (r: Word)
    ensures r % 4 == 0
  {
    (num + 3) % TWO32 / 4 * 4
  }

  /** Rounding up loses the request exactly when the addition wraps. */
  lemma AlignUpCovers(num: Word)
    ensures num <= AlignUp(num) <==> num <= 0xFFFF_FFFC
    ensures num <= 0xFFFF_FFFC ==> AlignUp(num) < num + 4
    ensures num > 0xFFFF_FFFC ==> AlignUp(num) == 0
  {
    if num > 0xFFFF_FFFC { assert (num + 3) % TWO32 == num + 3 - TWO32; }
  }

  // ---------- what a call does, as a relation between heap states ----------

  /** The heap between calls: its bounds, its words, and the blocks they encode. */
  datatype Heap = Heap(lo: int, hi: int, words: seq<Word>, blocks: seq<Block>)

  ghost predicate HeapInv(h: Heap)
  {
    && Bounded(h.lo, h.hi, h.words) && Inv(h.blocks, h.lo, h.hi) && Ample(h.blocks, h.hi)
    && Decodes(h.words, h.lo, h.blocks)
  }

  /** `malloc(request)`: halt and change nothing when no free block is large enough, else
      carve the request out of the first one that is. Only header words change. */
  ghost predicate MallocStep(h: Heap, request: Word, r: Option<Word>, h': Heap)
  {
    var size := AlignUp(request);
    var i := FirstFit(h.blocks, size);
    if i == |h.blocks| then r == None && h' == h
    else
      && r == Some(h.blocks[i].addr + HEADER)
      && h'.lo == h.lo && h'.hi == h.hi && |h'.words| == |h.words|
      && h'.blocks == Take(h.blocks, i, size)
      && Decodes(h'.words, h.lo, h'.blocks)
      && (forall k | 0 <= k < |h.words| && Outside(h.lo, h'.blocks, k) :: h'.words[k] == h.words[k])
  }

  /** The test `free` makes on the words below `ptr`. */
  predicate LooksLive(w: seq<Word>, lo: int, ptr: int)
  {
    var k := Slot(lo, ptr - HEADER);
    0 <= k && k + HEADER_WORDS <= |w| && w[k + F_MAGIC] == MAGIC && w[k + F_ALLOCATED] != 0
  }

  /** A pointer `free` can be given: one it will refuse, or one that `malloc` returned. */
  ghost predicate Freeable(h: Heap, ptr: int)
  {
    && h.lo + HEADER <= ptr <= h.hi && ptr % 4 == 0
    && (LooksLive(h.words, h.lo, ptr) ==> exists b :: b in Live(h.blocks) && b.addr == ptr - HEADER)
  }

  ghost predicate HeaderKept(lo: int, b: Block, addr: int, w: seq<Word>, v: seq<Word>)
  {
    var k := Slot(lo, b.addr);
    && 0 <= k && k + HEADER_WORDS <= |w| && |v| == |w|
    && v[k + F_MAGIC] == w[k + F_MAGIC]
    && v[k + F_ALLOCATED] == if b.addr == addr then 0 else w[k + F_ALLOCATED]
  }

  /** No word outside a header of `bs` differs, every magic is kept, and the only mark
      that differs is the one at `addr`, which is now 0. */
  ghost predicate OnlyHeadersChange(lo: int, bs: seq<Block>, addr: int, w: seq<Word>, v: seq<Word>)
  {
    && |v| == |w|
    && (forall k | 0 <= k < |w| && Outside(lo, bs, k) :: v[k] == w[k])
    && (forall i | 0 <= i < |bs| :: HeaderKept(lo, bs[i], addr, w, v))
  }

  /** `free(ptr)`: refuse and change nothing, or release the block and merge it with its
      free neighbours. */
  ghost predicate FreeStep(h: Heap, ptr: int, ok: bool, h': Heap)
  {
    && ok == LooksLive(h.words, h.lo, ptr)
    && (!ok ==> h' == h)
    && (ok ==>
      var i := Find(h.blocks, ptr - HEADER);
      && i < |h.blocks| && h.blocks[i].used
      && h'.lo == h.lo && h'.hi == h.hi
      && h'.blocks == Release(h.blocks, i)
      && Decodes(h'.words, h.lo, h'.blocks)
      && OnlyHeadersChange(h.lo, h.blocks, ptr - HEADER, h.words, h'.words))
  }

  /** The writes of `malloc` are a `malloc` step, and keep the heap well formed. */
  lemma TakenIsMalloc(h: Heap, request: Word)
    requires HeapInv(h)
    requires Room(h.words, h.lo, h.blocks, FirstFit(h.blocks, AlignUp(request)), AlignUp(request))
    ensures var size := AlignUp(request);
      var i := FirstFit(h.blocks, size);
      var h' := Heap(h.lo, h.hi, Taken(h.words, h.lo, h.blocks, i, size), Take(h.blocks, i, size));
      HeapInv(h') && MallocStep(h, request, Some(h.blocks[i].addr + HEADER), h')
  {
    var size := AlignUp(request);
    var i := FirstFit(h.blocks, size);
    TakenDecodes(h.words, h.lo, h.hi, h.blocks, i, size);
    TakeKeepsOrdered(h.blocks, i, size, h.lo, h.hi);
    TakeKeepsCoalesced(h.blocks, i, size);
    TakeKeepsAmple(h.blocks, i, size, h.lo, h.hi);
    var v := Taken(h.words, h.lo, h.blocks, i, size);
    forall k | 0 <= k < |v| && Outside(h.lo, Take(h.blocks, i, size), k) ensures v[k] == h.words[k] {
      TakenFrame(h.words, h.lo, h.blocks, i, size, k);
    }
  }

  /** Bounds on page boundaries are aligned and at least a page apart. */
  lemma PagesHoldHeader(lo: Word, hi: Word)
    requires lo < hi && lo % PAGE_SIZE == 0 && hi % PAGE_SIZE == 0
    ensures hi - lo >= PAGE_SIZE && lo % 4 == 0
  {
    var p, q := lo / PAGE_SIZE, hi / PAGE_SIZE;
    assert lo == PAGE_SIZE * p && hi == PAGE_SIZE * q;
    assert p < q;
    assert lo == 4 * (1024 * p);
  }

  /** A heap that is one free block under one header. */
  lemma FirstHeader(lo: Word, hi: Word, w: seq<Word>)
    requires 0 < lo < hi && lo % 4 == 0 && hi == lo + 4 * |w| && HEADER_WORDS < |w|
    requires Read(w, 0) == Fields(MAGIC, 0, 0, 0, hi - lo - HEADER)
    ensures var bs := [Block(lo, hi - lo - HEADER, false)];
      HeapInv(Heap(lo, hi, w, bs))
  {
    var b := Block(lo, hi - lo - HEADER, false);
    assert Sound(b) by { assert b.size == 4 * (|w| - 5); }
    assert Slot(lo, lo) == 0;
    assert Ordered([b], lo, hi) && Coalesced([b]);
    assert HeaderAt(w, lo, [b], 0);
  }

  // ---------- free, in three stages of writes ----------

  /** The words `w` of a heap at [lo, hi) encode the list `c`. */
  ghost predicate Image(lo: int, hi: int, w: seq<Word>, c: seq<Block>)
  {
    Ordered(c, lo, hi) && Bounded(lo, hi, w) && Decodes(w, lo, c)
  }

  ghost predicate BackWrites(lo: int, w: seq<Word>, v: seq<Word>, c: seq<Block>, i: nat)
    requires i < |c|
  {
    if i > 0 && !c[i - 1].used then JoinsBlocks(w, v, lo, c, i - 1) else v == w
  }

  ghost predicate ForwardWrites(lo: int, w: seq<Word>, v: seq<Word>, c: seq<Block>, i: nat)
    requires i < |c|
  {
    if i + 1 < |c| && !c[i + 1].used then JoinsBlocks(w, v, lo, c, i) else v == w
  }

  function Unmarked(bs: seq<Block>, i: nat): seq<Block>
    requires i < |bs|
  {
    bs[i := bs[i].(used := false)]
  }

  lemma ClearImage(lo: int, hi: int, w: seq<Word>, v: seq<Word>, bs: seq<Block>, i: nat)
    requires Image(lo, hi, w, bs) && i < |bs| && ClearWrites(w, v, Slot(lo, bs[i].addr))
    ensures Image(lo, hi, v, Unmarked(bs, i))
  {
    ClearDecodes(w, v, lo, hi, bs, i);
    assert Sound(bs[i]);
    forall k ensures Apart(Unmarked(bs, i), k) { assert Apart(bs, k); }
  }

  lemma BackImage(lo: int, hi: int, w: seq<Word>, v: seq<Word>, bs: seq<Block>, i: nat)
    requires i < |bs| && Image(lo, hi, w, Unmarked(bs, i)) && BackWrites(lo, w, v, Unmarked(bs, i), i)
    ensures Image(lo, hi, v, ReleaseBack(bs, i))
  {
    if JoinsBack(bs, i) {
      JoinKeepsOrdered(Unmarked(bs, i), i - 1, lo, hi);
      JoinDecodes(w, v, lo, hi, Unmarked(bs, i), i - 1);
    }
  }

  lemma ForwardImage(lo: int, hi: int, w: seq<Word>, v: seq<Word>, bs: seq<Block>, i: nat)
    requires i < |bs| && Image(lo, hi, w, ReleaseBack(bs, i))
    requires ForwardWrites(lo, w, v, ReleaseBack(bs, i), ReleaseAt(bs, i))
    ensures Image(lo, hi, v, Release(bs, i))
  {
    var d, j := ReleaseBack(bs, i), ReleaseAt(bs, i);
    if j + 1 < |d| && !d[j + 1].used {
      JoinKeepsOrdered(d, j, lo, hi);
      JoinDecodes(w, v, lo, hi, d, j);
    }
  }

  /** Words that are no magic, no mark and in a header of `bs`. */
  ghost predicate LinkWord(lo: int, bs: seq<Block>, m: int)
  {
    exists p :: 0 <= p < |bs| && Slot(lo, bs[p].addr) < m < Slot(lo, bs[p].addr) + HEADER_WORDS
                && m != Slot(lo, bs[p].addr) + F_ALLOCATED
  }

  lemma LinkWordAt(lo: int, bs: seq<Block>, p: nat, f: int)
    requires p < |bs| && (f == F_NEXT || f == F_PREV || f == F_SIZE)
    ensures LinkWord(lo, bs, Slot(lo, bs[p].addr) + f)
  {
  }

  ghost predicate OnlyLinksChange(lo: int, bs: seq<Block>, w: seq<Word>, v: seq<Word>)
  {
    |v| == |w| && forall m | 0 <= m < |w| :: v[m] == w[m] || LinkWord(lo, bs, m)
  }

  /** A merge of blocks whose headers are in `bs` writes nothing but links and sizes of `bs`. */
  lemma JoinLinks(lo: int, bs: seq<Block>, w: seq<Word>, v: seq<Word>, c: seq<Block>, i: nat, p: nat, q: nat)
    requires i + 1 < |c| && JoinsBlocks(w, v, lo, c, i)
    requires p < |bs| && bs[p].addr == c[i].addr
    requires i + 2 < |c| ==> q < |bs| && bs[q].addr == c[i + 2].addr
    ensures OnlyLinksChange(lo, bs, w, v)
  {
    LinkWordAt(lo, bs, p, F_NEXT);
    LinkWordAt(lo, bs, p, F_SIZE);
    if i + 2 < |c| { LinkWordAt(lo, bs, q, F_PREV); }
  }

  lemma BackLinks(lo: int, bs: seq<Block>, i: nat, w: seq<Word>, v: seq<Word>)
    requires i < |bs| && BackWrites(lo, w, v, Unmarked(bs, i), i)
    ensures OnlyLinksChange(lo, bs, w, v)
  {
    if JoinsBack(bs, i) { JoinLinks(lo, bs, w, v, Unmarked(bs, i), i - 1, i - 1, i + 1); }
  }

  lemma ForwardLinks(lo: int, bs: seq<Block>, i: nat, w: seq<Word>, v: seq<Word>)
    requires i < |bs| && ForwardWrites(lo, w, v, ReleaseBack(bs, i), ReleaseAt(bs, i))
    ensures OnlyLinksChange(lo, bs, w, v)
  {
    var d, j := ReleaseBack(bs, i), ReleaseAt(bs, i);
    if j + 1 < |d| && !d[j + 1].used { JoinLinks(lo, bs, w, v, d, j, j, i + 2); }
  }

  /** Link words are in headers, and are neither magics nor marks. */
  lemma LinkWordOnly(lo: int, hi: int, bs: seq<Block>, m: int)
    requires Ordered(bs, lo, hi) && lo % 4 == 0 && LinkWord(lo, bs, m)
    ensures !Outside(lo, bs, m)
    ensures forall j :: 0 <= j < |bs| ==> m != Slot(lo, bs[j].addr) + F_MAGIC && m != Slot(lo, bs[j].addr) + F_ALLOCATED
  {
    var p :| 0 <= p < |bs| && Slot(lo, bs[p].addr) < m < Slot(lo, bs[p].addr) + HEADER_WORDS
             && m != Slot(lo, bs[p].addr) + F_ALLOCATED;
    assert Covers(lo, bs[p], m);
    forall j | 0 <= j < |bs|
      ensures m != Slot(lo, bs[j].addr) + F_MAGIC && m != Slot(lo, bs[j].addr) + F_ALLOCATED
    {
      HeadersApart(bs, lo, hi, p, j);
    }
  }

  /** Clearing the mark of block `i` and then changing links changes headers only. */
  lemma FreeFrame(h: Heap, i: nat, w: seq<Word>, v: seq<Word>)
    requires HeapInv(h) && i < |h.blocks| && ClearWrites(h.words, w, Slot(h.lo, h.blocks[i].addr))
    requires |v| == |w| && forall m | 0 <= m < |w| :: v[m] == w[m] || LinkWord(h.lo, h.blocks, m)
    ensures OnlyHeadersChange(h.lo, h.blocks, h.blocks[i].addr, h.words, v)
  {
    forall m | 0 <= m < |v| && Outside(h.lo, h.blocks, m) ensures v[m] == h.words[m] {
      if v[m] != w[m] { LinkWordOnly(h.lo, h.hi, h.blocks, m); }
      assert !Covers(h.lo, h.blocks[i], m);
    }
    forall j | 0 <= j < |h.blocks| ensures HeaderKept(h.lo, h.blocks[j], h.blocks[i].addr, h.words, v) {
      assert HeaderAt(h.words, h.lo, h.blocks, j);
      HeadersApart(h.blocks, h.lo, h.hi, i, j);
      var k := Slot(h.lo, h.blocks[j].addr);
      if v[k + F_MAGIC] != w[k + F_MAGIC] { LinkWordOnly(h.lo, h.hi, h.blocks, k + F_MAGIC); }
      if v[k + F_ALLOCATED] != w[k + F_ALLOCATED] { LinkWordOnly(h.lo, h.hi, h.blocks, k + F_ALLOCATED); }
      if i != j { BlocksDistinct(h.blocks, h.lo, h.hi, i, j); }
    }
  }

  /** The three stages make a `free` step, and keep the heap well formed. */
  lemma StagesAreFree(h: Heap, ptr: Word, w1: seq<Word>, w2: seq<Word>, h': Heap)
    requires HeapInv(h) && LooksLive(h.words, h.lo, ptr)
    requires var i := Find(h.blocks, ptr - HEADER);
      && i < |h.blocks| && h.blocks[i].used
      && ClearWrites(h.words, w1, Slot(h.lo, ptr - HEADER))
      && BackWrites(h.lo, w1, w2, Unmarked(h.blocks, i), i)
      && ForwardWrites(h.lo, w2, h'.words, ReleaseBack(h.blocks, i), ReleaseAt(h.blocks, i))
      && h' == Heap(h.lo, h.hi, h'.words, Release(h.blocks, i))
    ensures HeapInv(h') && FreeStep(h, ptr, true, h')
  {
    var i := Find(h.blocks, ptr - HEADER);
    ClearImage(h.lo, h.hi, h.words, w1, h.blocks, i);
    BackImage(h.lo, h.hi, w1, w2, h.blocks, i);
    ForwardImage(h.lo, h.hi, w2, h'.words, h.blocks, i);
    BackLinks(h.lo, h.blocks, i, w1, w2);
    ForwardLinks(h.lo, h.blocks, i, w2, h'.words);
    FreeFrame(h, i, w1, h'.words);
    ReleaseKeepsCoalesced(h.blocks, i);
    ReleaseKeepsAmple(h.blocks, i, h.lo, h.hi);
  }

  /** `Merge` of block `i` with its successor may be called, and merges them. */
  lemma MergeRoom(lo: int, hi: int, w: seq<Word>, c: seq<Block>, i: nat)
    requires Image(lo, hi, w, c) && i + 1 < |c|
    ensures var k, m, n := Slot(lo, c[i].addr), Slot(lo, c[i + 1].addr), NextOf(c, i + 1);
      && InRange(w, k) && InRange(w, m) && k + HEADER_WORDS <= m
      && Read(w, k) == Expected(c, i) && Read(w, m) == Expected(c, i + 1)
      && c[i].size + c[i + 1].size + HEADER < TWO32
      && After(lo, c, i + 2) == (if n != 0 then Slot(lo, n) else -1)
      && (n != 0 ==> m + HEADER_WORDS <= Slot(lo, n) <= |w| - HEADER_WORDS)
  {
    assert HeaderAt(w, lo, c, i) && HeaderAt(w, lo, c, i + 1) && Sound(c[i]) && Sound(c[i + 1]) && Apart(c, i);
    HeadersApart(c, lo, hi, i, i + 1);
    BlockInside(c, lo, hi, w, i + 1);
    BlockInside(c, lo, hi, w, i);
    if i + 2 < |c| {
      BlockInside(c, lo, hi, w, i + 2);
      HeadersApart(c, lo, hi, i + 1, i + 2);
    }
  }

  lemma FreeableFound(h: Heap, ptr: Word)
    requires HeapInv(h) && Freeable(h, ptr) && LooksLive(h.words, h.lo, ptr)
    ensures var i := Find(h.blocks, ptr - HEADER);
      i < |h.blocks| && h.blocks[i].used && h.blocks[i].addr == ptr - HEADER
  {
    var b :| b in Live(h.blocks) && b.addr == ptr - HEADER;
    var k :| 0 <= k < |h.blocks| && h.blocks[k] == b;
    FindAt(h.blocks, h.lo, h.hi, k);
  }

  /** Only a header with a mark of 0 belongs to a free block. */
  lemma MarkTellsFree(w: seq<Word>, lo: int, bs: seq<Block>, i: nat)
    requires Decodes(w, lo, bs) && i < |bs|
    ensures var k := Slot(lo, bs[i].addr);
      InRange(w, k) && Read(w, k) == Expected(bs, i) && (w[k + F_ALLOCATED] == 0 <==> !bs[i].used)
  {
    assert HeaderAt(w, lo, bs, i);
  }

  // ---------- the pointer code ----------

  class KernelHeap {
    var startAddress: Word
    var endAddress: Word
    var firstHeader: Word
    /** The words at addresses startAddress, startAddress + 4, ... */
    const ram: array<Word>
    /** The list the headers encode. */
    ghost var blocks: seq<Block>

    ghost function View(): Heap
      reads this, ram
    {
      Heap(startAddress, endAddress, ram[..], blocks)
    }

    ghost predicate Valid()
      reads this, ram
    {
      HeapInv(View()) && firstHeader == startAddress
    }

    constructor (ram: array<Word>)
      ensures this.ram == ram && startAddress == 0 && endAddress == 0 && firstHeader == 0 && blocks == []
    {
      this.ram := ram;
      startAddress, endAddress, firstHeader, blocks := 0, 0, 0, [];
    }

    /** `ram` is the memory of [start, end). Unaligned bounds halt the kernel. */
    method Initialize(start: Word, end: Word) returns (ok: bool)
      requires 0 < start < end && end - start == 4 * ram.Length
      modifies this, ram
      ensures ok <==> start % PAGE_SIZE == 0 && end % PAGE_SIZE == 0
      ensures !ok ==> View() == old(View()) && firstHeader == old(firstHeader)
      ensures ok ==> Valid() && View() == Heap(start, end, ram[..], [Block(start, end - start - HEADER, false)])
    {
      if start % PAGE_SIZE != 0 || end % PAGE_SIZE != 0 {
        return false;
      }
      PagesHoldHeader(start, end);
      startAddress := start;
      endAddress := end;
      firstHeader := start;
      var k := Slot(start, firstHeader);
      ram[k + F_ALLOCATED] := 0;
      ram[k + F_PREV] := 0;
      ram[k + F_NEXT] := 0;
      ram[k + F_SIZE] := end - start - HEADER;
      ram[k + F_MAGIC] := MAGIC;
      blocks := [Block(start, end - start - HEADER, false)];
      FirstHeader(start, end, ram[..]);
      assert View() == Heap(start, end, ram[..], blocks);
      ok := true;
    }

    /** Address of the first free block of at least `size` bytes, 0 if there is none. */
    method FirstFree(size: Word) returns (block: Word)
      requires Valid()
      ensures var i := FirstFit(blocks, size);
        block == if i < |blocks| then blocks[i].addr else 0
    {
      var lo := startAddress;
      block := firstHeader;
      ghost var i := 0;
      while block != 0 && ram[Slot(lo, block) + F_MAGIC] == MAGIC
        invariant 0 <= i <= |blocks|
        invariant i == |blocks| ==> block == 0
        invariant i < |blocks| ==> HeaderAt(ram[..], startAddress, blocks, i) && block == blocks[i].addr != 0
        invariant forall k :: 0 <= k < i ==> !Fits(blocks[k], size)
        decreases |blocks| - i
      {
        if ram[Slot(lo, block) + F_ALLOCATED] != 0 || ram[Slot(lo, block) + F_SIZE] < size {
          block := ram[Slot(lo, block) + F_NEXT];
          i := i + 1;
          if i < |blocks| {
            assert HeaderAt(ram[..], startAddress, blocks, i);
            BlockInside(blocks, startAddress, endAddress, ram[..], i);
          }
          continue;
        }
        return block;
      }
      return 0;
    }

    /** Write a header for the rest of `freeBlock` behind its first `size` bytes and link
        it in (the body of the splitting branch). */
    method Split(freeBlock: Word, size: Word)
      requires size + HEADER + MIN_SPLIT <= TWO32 - freeBlock
      requires var k, n := Slot(startAddress, freeBlock), Slot(startAddress, freeBlock + size + HEADER);
        && InRange(ram[..], k) && InRange(ram[..], n) && k + HEADER_WORDS <= n
        && size + HEADER + MIN_SPLIT <= ram[k + F_SIZE]
        && (ram[k + F_NEXT] != 0 ==>
              n + HEADER_WORDS <= Slot(startAddress, ram[k + F_NEXT]) <= ram.Length - HEADER_WORDS)
      modifies ram
      ensures var at, next := freeBlock + size + HEADER, old(ram[Slot(startAddress, freeBlock) + F_NEXT]);
        ram[..] == Linked(old(ram[..]), Slot(startAddress, freeBlock), freeBlock, Slot(startAddress, at), at,
                          if next != 0 then Slot(startAddress, next) else -1, size)
    {
      var lo := startAddress;
      var nextBlock := freeBlock + size + HEADER;
      var next := ram[Slot(lo, freeBlock) + F_NEXT];
      ram[Slot(lo, nextBlock) + F_ALLOCATED] := 0;
      ram[Slot(lo, nextBlock) + F_SIZE] := ram[Slot(lo, freeBlock) + F_SIZE] - size - HEADER;
      ram[Slot(lo, nextBlock) + F_PREV] := freeBlock;
      ram[Slot(lo, nextBlock) + F_NEXT] := next;
      if next != 0 {
        ram[Slot(lo, next) + F_PREV] := nextBlock;
      }
      ram[Slot(lo, nextBlock) + F_MAGIC] := MAGIC;
      ram[Slot(lo, freeBlock) + F_NEXT] := nextBlock;
    }

    /** Hand out the free block `i`: split it when it is large enough, mark it, shrink it. */
    method Carve(freeBlock: Word, size: Word, ghost i: nat)
      requires Room(ram[..], startAddress, blocks, i, size) && freeBlock == blocks[i].addr
      modifies ram
      ensures ram[..] == Taken(old(ram[..]), startAddress, blocks, i, size)
    {
      var lo := startAddress;
      if ram[Slot(lo, freeBlock) + F_SIZE] >= size + HEADER + MIN_SPLIT {
        Split(freeBlock, size);
      }
      ram[Slot(lo, freeBlock) + F_ALLOCATED] := 1;
      ram[Slot(lo, freeBlock) + F_SIZE] := size;
    }

    method InternalAllocate(request: Word) returns (r: Option<Word>)
      requires Valid()
      modifies this`blocks, ram
      ensures Valid() && MallocStep(old(View()), request, r, View())
    {
      var size := AlignUp(request);
      var freeBlock := FirstFree(size);
      ghost var i := FirstFit(blocks, size);
      if i < |blocks| { EnoughRoom(ram[..], startAddress, endAddress, blocks, i, size); }
      if freeBlock == 0 {
        return None;
      }
      Carve(freeBlock, size, i);
      TakenIsMalloc(old(View()), request);
      blocks := Take(blocks, i, size);
      return Some(freeBlock + HEADER);
    }

    /** `first` takes over the room of `second`, which follows it in the list, and is
        linked to the header after it. */
    method Merge(first: Word, second: Word)
      requires var k, m := Slot(startAddress, first), Slot(startAddress, second);
        && InRange(ram[..], k) && InRange(ram[..], m) && k + HEADER_WORDS <= m
        && ram[k + F_SIZE] + ram[m + F_SIZE] + HEADER < TWO32
        && (ram[m + F_NEXT] != 0 ==>
              m + HEADER_WORDS <= Slot(startAddress, ram[m + F_NEXT]) <= ram.Length - HEADER_WORDS)
      modifies ram
      ensures var next := Read(old(ram[..]), Slot(startAddress, second));
        JoinWrites(old(ram[..]), ram[..], Slot(startAddress, first), next,
                   if next.next != 0 then Slot(startAddress, next.next) else -1, first)
    {
      var lo := startAddress;
      ram[Slot(lo, first) + F_NEXT] := ram[Slot(lo, second) + F_NEXT];
      ram[Slot(lo, first) + F_SIZE] := ram[Slot(lo, first) + F_SIZE] + ram[Slot(lo, second) + F_SIZE] + HEADER;
      if ram[Slot(lo, second) + F_NEXT] != 0 {
        ram[Slot(lo, ram[Slot(lo, second) + F_NEXT]) + F_PREV] := first;
      }
    }

    /** The first merge of `free`: into a free predecessor. */
    method MergeBack(block: Word, ghost hi: int, ghost c: seq<Block>, ghost i: nat) returns (b: Word)
      requires Image(startAddress, hi, ram[..], c) && i < |c| && block == c[i].addr
      modifies ram
      ensures BackWrites(startAddress, old(ram[..]), ram[..], c, i)
      ensures b == if i > 0 && !c[i - 1].used then c[i - 1].addr else block
    {
      var lo := startAddress;
      MarkTellsFree(ram[..], lo, c, i);
      if i > 0 {
        BlockInside(c, lo, hi, ram[..], i - 1);
        MarkTellsFree(ram[..], lo, c, i - 1);
        MergeRoom(lo, hi, ram[..], c, i - 1);
      }
      var prev := ram[Slot(lo, block) + F_PREV];
      b := block;
      if prev != 0 && ram[Slot(lo, prev) + F_ALLOCATED] == 0 {
        Merge(prev, block);
        b := prev;
      }
    }

    /** The second merge of `free`: with a free successor. */
    method MergeForward(block: Word, ghost hi: int, ghost c: seq<Block>, ghost i: nat)
      requires Image(startAddress, hi, ram[..], c) && i < |c| && block == c[i].addr
      modifies ram
      ensures ForwardWrites(startAddress, old(ram[..]), ram[..], c, i)
    {
      var lo := startAddress;
      MarkTellsFree(ram[..], lo, c, i);
      if i + 1 < |c| {
        BlockInside(c, lo, hi, ram[..], i + 1);
        MarkTellsFree(ram[..], lo, c, i + 1);
        MergeRoom(lo, hi, ram[..], c, i);
      }
      var next := ram[Slot(lo, block) + F_NEXT];
      if next != 0 && ram[Slot(lo, next) + F_ALLOCATED] == 0 {
        Merge(block, next);
      }
    }

    /** Clear the mark of block `i` and merge it with its free neighbours. */
    method Coalesce(header: Word, ghost hi: int, ghost bs: seq<Block>, ghost i: nat)
      returns (ghost w1: seq<Word>, ghost w2: seq<Word>)
      requires Image(startAddress, hi, ram[..], bs) && i < |bs| && header == bs[i].addr
      modifies ram
      ensures ClearWrites(old(ram[..]), w1, Slot(startAddress, header))
      ensures BackWrites(startAddress, w1, w2, Unmarked(bs, i), i)
      ensures ForwardWrites(startAddress, w2, ram[..], ReleaseBack(bs, i), ReleaseAt(bs, i))
    {
      var lo := startAddress;
      MarkTellsFree(ram[..], lo, bs, i);
      ram[Slot(lo, header) + F_ALLOCATED] := 0;
      w1 := ram[..];
      ClearImage(lo, hi, old(ram[..]), w1, bs, i);
      var block := MergeBack(header, hi, Unmarked(bs, i), i);
      w2 := ram[..];
      BackImage(lo, hi, w1, w2, bs, i);
      MergeForward(block, hi, ReleaseBack(bs, i), ReleaseAt(bs, i));
    }

    /** The double-free test on the header at `block`. */
    method Intact(block: Word) returns (live: bool)
      requires InRange(ram[..], Slot(startAddress, block))
      ensures live == LooksLive(ram[..], startAddress, block + HEADER)
    {
      var k := Slot(startAddress, block);
      live := !(ram[k + F_MAGIC] != MAGIC || ram[k + F_ALLOCATED] == 0);
    }

    /** `free`: false stands for the halt on a detected double free. */
    method Free(ptr: Word) returns (ok: bool)
      requires Valid() && Freeable(View(), ptr)
      modifies this`blocks, ram
      ensures Valid() && FreeStep(old(View()), ptr, ok, View())
    {
      var block := ptr - HEADER;
      ok := Intact(block);
      if ok {
        ghost var h, i := View(), Find(blocks, block);
        FreeableFound(h, ptr);
        ghost var w1, w2 := Coalesce(block, endAddress, blocks, i);
        blocks := Release(h.blocks, i);
        StagesAreFree(h, ptr, w1, w2, View());
      }
    }
  }
}
