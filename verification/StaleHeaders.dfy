/** When the double-free test of `free` is fooled: exactly which calls of `malloc` make the header of a
    freed block look live again. */
module StaleHeaders {
  import opened Words
  import opened BlockList
  import opened HeapImage
  import opened KernelHeap
  import opened HeapRuns

  const F_MARK := F_ALLOCATED

  /** The magic of the freed header at `addr` has not been overwritten. */
  predicate MagicIntact(h: Heap, addr: int)
  {
    InRange(h.words, Slot(h.lo, addr)) && h.words[Slot(h.lo, addr) + F_MAGIC] == MAGIC
  }

  /** The remainder of splitting `b`, the last block or not, puts a word that is not 0 on the mark of
      the freed header at `addr` and leaves its magic alone. */
  predicate RemainderRevives(b: Block, last: bool, size: int, addr: int)
  {
    var at := b.addr + HEADER + size;
    Splits(b, size) && (at == addr + 4 || at == addr + 12 || (at == addr + 8 && !last))
  }

  /** The block handed out is the freed one, or its remainder revives the header. */
  predicate Revives(h: Heap, request: Word, addr: int)
  {
    var size, i := AlignUp(request), FirstFit(h.blocks, AlignUp(request));
    i < |h.blocks| &&
    (h.blocks[i].addr == addr
     || (MagicIntact(h, addr) && RemainderRevives(h.blocks[i], i + 1 == |h.blocks|, size, addr)))
  }

  // ---------- the freed header still heads a block ----------

  lemma HeadedMark(h: Heap, k: nat)
    requires HeapInv(h) && k < |h.blocks|
    ensures LooksLive(h.words, h.lo, h.blocks[k].addr + HEADER) <==> h.blocks[k].used
  {
    assert HeaderAt(h.words, h.lo, h.blocks, k);
  }

  /** Where the old blocks and the block handed out lie with respect to the freed header. */
  lemma OldPlaces(bs: seq<Block>, lo: int, hi: int, i: nat, size: int, addr: int, m: nat)
    requires Ordered(bs, lo, hi) && i < |bs| && !bs[i].used && Spared(bs, addr)
    requires m < |Take(bs, i, size)| && !(Splits(bs[i], size) && m == i + 1)
    ensures var c := Take(bs, i, size)[m];
      && (c.addr == addr && m != i ==> !c.used)
      && (c.addr != addr ==> addr + HEADER <= c.addr || c.addr + HEADER <= addr)
  {
    TakeLength(bs, i, size);
    TakeAt(bs, i, size, m);
    var o := if m <= i || !Splits(bs[i], size) then m else m - 1;
    assert SparesHeader(bs[o], addr) && Sound(bs[o]);
  }

  lemma HeadsApart(bs: seq<Block>, lo: int, hi: int, j: nat, k: nat)
    requires Ordered(bs, lo, hi) && j < |bs| && k < |bs|
    ensures j < k ==> bs[j].addr + HEADER <= bs[k].addr
    ensures k < j ==> bs[k].addr + HEADER <= bs[j].addr
  {
    assert Sound(bs[j]) && Sound(bs[k]);
    if j < k { OrderedFar(bs, lo, hi, j, k); }
    if k < j { OrderedFar(bs, lo, hi, k, j); }
  }

  lemma HeadedRevives(h: Heap, request: Word, p: Word, h': Heap, addr: int, k: nat)
    requires HeapInv(h) && Spared(h.blocks, addr) && MallocStep(h, request, Some(p), h')
    requires k < |h'.blocks| && h'.blocks[k].addr == addr
    ensures LooksLive(h'.words, h'.lo, addr + HEADER) <==> Revives(h, request, addr)
  {
    var size, i := AlignUp(request), FirstFit(h.blocks, AlignUp(request));
    MallocKeepsInv(h, request, Some(p), h');
    HeadedMark(h', k);
    TakeLength(h.blocks, i, size);
    TakeAt(h.blocks, i, size, i);
    if k == i {
    } else {
      BlocksDistinct(h'.blocks, h.lo, h.hi, i, k);
      if Splits(h.blocks[i], size) {
        TakeAt(h.blocks, i, size, i + 1);
        HeadsApart(h'.blocks, h.lo, h.hi, i + 1, k);
        if k != i + 1 { OldPlaces(h.blocks, h.lo, h.hi, i, size, addr, k); }
      } else {
        OldPlaces(h.blocks, h.lo, h.hi, i, size, addr, k);
      }
    }
  }

  // ---------- the freed header lies inside a payload or a free block ----------

  lemma ClearSlots(lo: int, c: Block, addr: int, m: int)
    requires lo % 4 == 0 && addr % 4 == 0 && c.addr % 4 == 0
    requires addr + HEADER <= c.addr || c.addr + HEADER <= addr
    requires Slot(lo, addr) <= m < Slot(lo, addr) + HEADER_WORDS
    ensures !Covers(lo, c, m)
  {
  }

  /** A word of the freed header that the remainder's header does not cover is not written. */
  lemma OldWord(h: Heap, request: Word, p: Word, h': Heap, addr: int, m: int)
    requires HeapInv(h) && Stale(h, addr) && MallocStep(h, request, Some(p), h')
    requires forall k :: 0 <= k < |h'.blocks| ==> h'.blocks[k].addr != addr
    requires Slot(h.lo, addr) <= m < Slot(h.lo, addr) + HEADER_WORDS
    requires var size, b := AlignUp(request), h.blocks[FirstFit(h.blocks, AlignUp(request))];
      var n := Slot(h.lo, b.addr + HEADER + size);
      Splits(b, size) ==> !(n <= m < n + HEADER_WORDS)
    ensures 0 <= m < |h.words| == |h'.words| && h'.words[m] == h.words[m]
  {
    var size, i := AlignUp(request), FirstFit(h.blocks, AlignUp(request));
    MallocKeepsInv(h, request, Some(p), h');
    TakeLength(h.blocks, i, size);
    forall o | 0 <= o < |h'.blocks| ensures !Covers(h.lo, h'.blocks[o], m) {
      if Splits(h.blocks[i], size) && o == i + 1 {
        TakeAt(h.blocks, i, size, o);
      } else {
        OldPlaces(h.blocks, h.lo, h.hi, i, size, addr, o);
        assert Sound(h'.blocks[o]);
        ClearSlots(h.lo, h'.blocks[o], addr, m);
      }
    }
  }

  lemma BlockFacts(h: Heap, i: nat)
    requires HeapInv(h) && i < |h.blocks|
    ensures Sound(h.blocks[i]) && h.blocks[i].addr > 0 && h.lo % 4 == 0
  {
    AmpleStart(h.blocks, h.lo, h.hi, i);
  }

  lemma HeaderWords(h: Heap, i: nat)
    requires HeapInv(h) && i < |h.blocks|
    ensures InRange(h.words, Slot(h.lo, h.blocks[i].addr))
    ensures Read(h.words, Slot(h.lo, h.blocks[i].addr)) == Expected(h.blocks, i)
  {
    assert HeaderAt(h.words, h.lo, h.blocks, i);
  }

  lemma MallocParts(h: Heap, request: Word, p: Word, h': Heap)
    requires HeapInv(h) && MallocStep(h, request, Some(p), h')
    ensures var size, i := AlignUp(request), FirstFit(h.blocks, AlignUp(request));
      && i < |h.blocks| && h'.blocks == Take(h.blocks, i, size) && size % 4 == 0
      && h'.lo == h.lo && |h'.words| == |h.words| && HeapInv(h')
  {
    MallocKeepsInv(h, request, Some(p), h');
  }

  lemma RemainderFacts(h: Heap, i: nat, size: int)
    requires HeapInv(h) && i < |h.blocks| && Splits(h.blocks[i], size) && size % 4 == 0
    ensures var b, next := h.blocks[i], NextOf(h.blocks, i);
      && (b.addr + HEADER + size) % 4 == 0 && b.addr > 0 && b.size - size - HEADER > 0
      && next % 4 == 0 && (next == 0 <==> i + 1 == |h.blocks|)
  {
    hide HeapInv;
    BlockFacts(h, i);
    if i + 1 < |h.blocks| { BlockFacts(h, i + 1); }
  }

  /** The words of the remainder's header. */
  lemma RemainderWords(h: Heap, request: Word, p: Word, h': Heap)
    requires HeapInv(h) && MallocStep(h, request, Some(p), h')
    requires Splits(h.blocks[FirstFit(h.blocks, AlignUp(request))], AlignUp(request))
    ensures var size, i := AlignUp(request), FirstFit(h.blocks, AlignUp(request));
      var b := h.blocks[i];
      var n, next := Slot(h.lo, b.addr + HEADER + size), NextOf(h.blocks, i);
      && InRange(h'.words, n) && Read(h'.words, n) == Fields(MAGIC, next, b.addr, 0, b.size - size - HEADER)
      && (b.addr + HEADER + size) % 4 == 0 && b.addr > 0 && b.size - size - HEADER > 0
      && next % 4 == 0 && (next == 0 <==> i + 1 == |h.blocks|)
  {
    hide *;
    var size, i := AlignUp(request), FirstFit(h.blocks, AlignUp(request));
    MallocParts(h, request, p, h');
    NewExpected(h.blocks, i, size);
    HeaderWords(h', i + 1);
    RemainderFacts(h, i, size);
  }

  /** The remainder's header starts `4 d` bytes after the freed one and overlaps it: its fields land on
      the mark and the magic as follows. */
  lemma OverlapRevives(w: seq<Word>, v: seq<Word>, a: int, d: int, b: Block, next: int, rest: int)
    requires InRange(w, a) && |v| == |w| && InRange(v, a + d) && d != 0
    requires Read(v, a + d) == Fields(MAGIC, next, b.addr, 0, rest)
    requires b.addr > 0 && rest > 0 && next % 4 == 0 && w[a + F_MARK] == 0
    requires forall m | a <= m < a + HEADER_WORDS && !(a + d <= m < a + d + HEADER_WORDS) :: v[m] == w[m]
    ensures (v[a + F_MAGIC] == MAGIC && v[a + F_MARK] != 0) <==>
      w[a + F_MAGIC] == MAGIC && (d == 1 || d == 3 || (d == 2 && next != 0))
  {
    assert MAGIC % 4 == 2;
    if -1 <= d <= 3 {
      assert v[a + F_MARK] == v[(a + d) + (3 - d)];
    }
    if d < 0 {
      assert d >= -4 ==> v[a + F_MAGIC] == v[(a + d) - d];
    }
  }

  lemma StaleFacts(h: Heap, addr: int)
    requires HeapInv(h) && Stale(h, addr)
    ensures addr % 4 == 0 && h.lo % 4 == 0 && InRange(h.words, Slot(h.lo, addr))
    ensures 0 <= Slot(h.lo, addr) && Slot(h.lo, addr) + HEADER_WORDS <= |h.words|
    ensures h.words[Slot(h.lo, addr) + F_MARK] == 0
  {
  }

  lemma LiveWords(h: Heap, addr: int)
    requires 0 <= Slot(h.lo, addr) && Slot(h.lo, addr) + HEADER_WORDS <= |h.words|
    ensures InRange(h.words, Slot(h.lo, addr))
    ensures var a := Slot(h.lo, addr);
      LooksLive(h.words, h.lo, addr + HEADER) <==> h.words[a + F_MAGIC] == MAGIC && h.words[a + F_MARK] != 0
    ensures MagicIntact(h, addr) <==> h.words[Slot(h.lo, addr) + F_MAGIC] == MAGIC
  {
  }

  /** Distances between headers, in bytes and in words. */
  lemma SlotDistance(lo: int, addr: int, at: int)
    requires lo % 4 == 0 && addr % 4 == 0 && at % 4 == 0
    ensures 4 * (Slot(lo, at) - Slot(lo, addr)) == at - addr
  {
  }

  lemma BuriedRevives(h: Heap, request: Word, p: Word, h': Heap, addr: int)
    requires HeapInv(h) && Stale(h, addr) && MallocStep(h, request, Some(p), h')
    requires forall k :: 0 <= k < |h'.blocks| ==> h'.blocks[k].addr != addr
    ensures LooksLive(h'.words, h'.lo, addr + HEADER) <==> Revives(h, request, addr)
  {
    hide HeapInv, MallocStep, Take, Read, InRange, Stale, Slot;
    var size, i := AlignUp(request), FirstFit(h.blocks, AlignUp(request));
    MallocParts(h, request, p, h');
    var b, a := h.blocks[i], Slot(h.lo, addr);
    var n := Slot(h.lo, b.addr + HEADER + size);
    TakeLength(h.blocks, i, size);
    TakeAt(h.blocks, i, size, i);
    StaleFacts(h, addr);
    forall m | a <= m < a + HEADER_WORDS && !(Splits(b, size) && n <= m < n + HEADER_WORDS)
      ensures 0 <= m < |h.words| == |h'.words| && h'.words[m] == h.words[m]
    {
      OldWord(h, request, p, h', addr, m);
    }
    LiveWords(h, addr);
    LiveWords(Heap(h'.lo, h'.hi, h'.words, []), addr);
    if Splits(b, size) {
      TakeAt(h.blocks, i, size, i + 1);
      RemainderWords(h, request, p, h');
      SlotDistance(h.lo, addr, b.addr + HEADER + size);
      OverlapRevives(h.words, h'.words, a, n - a, b, NextOf(h.blocks, i), b.size - size - HEADER);
    }
  }

  /** After a `malloc` a pointer freed earlier passes the double-free test exactly when the block handed
      out is its own again, or the remainder of the split puts a header 4, 8 or 12 bytes behind the
      old one, whose magic is still there: 8 bytes only if another block follows. */
  lemma MallocRevives(h: Heap, request: Word, p: Word, h': Heap, addr: int)
    requires HeapInv(h) && Stale(h, addr) && MallocStep(h, request, Some(p), h')
    ensures LooksLive(h'.words, h'.lo, addr + HEADER) <==> Revives(h, request, addr)
  {
    if k :| 0 <= k < |h'.blocks| && h'.blocks[k].addr == addr {
      HeadedRevives(h, request, p, h', addr, k);
    } else {
      BuriedRevives(h, request, p, h', addr);
    }
  }

  // ---------- a run that fools the test ----------

  /** `free` leaves the magic of the header it releases. */
  lemma FreeLeavesMagic(h: Heap, ptr: Word, h': Heap)
    requires HeapInv(h) && FreeStep(h, ptr, true, h')
    ensures MagicIntact(h', ptr - HEADER)
  {
    var i := Find(h.blocks, ptr - HEADER);
    HeaderWords(h, i);
    assert HeaderKept(h.lo, h.blocks[i], ptr - HEADER, h.words, h'.words);
  }

  lemma FourBlocks(lo: int, s: int)
    requires s >= 200
    ensures var b0 := [Block(lo, s, false)];
      var b1 := [Block(lo, 4, true), Block(lo + 24, s - 24, false)];
      var b2 := [Block(lo, 4, true), Block(lo + 24, 100, true), Block(lo + 144, s - 144, false)];
      var b3 := [Block(lo, 4, false), Block(lo + 24, 100, true), Block(lo + 144, s - 144, false)];
      && FirstFit(b0, 4) == 0 && Take(b0, 0, 4) == b1
      && FirstFit(b1, 100) == 1 && Take(b1, 1, 100) == b2
      && Find(b2, lo) == 0 && Release(b2, 0) == b3
      && Find(b3, lo + 24) == 1 && Release(b3, 1) == b0
      && FirstFit(b0, 16) == 0 && Take(b0, 0, 16) == [Block(lo, 16, true), Block(lo + 36, s - 36, false)]
  {
    var b0 := [Block(lo, s, false)];
    var b1 := [Block(lo, 4, true), Block(lo + 24, s - 24, false)];
    var b2 := [Block(lo, 4, true), Block(lo + 24, 100, true), Block(lo + 144, s - 144, false)];
    var b3 := [Block(lo, 4, false), Block(lo + 24, 100, true), Block(lo + 144, s - 144, false)];
    assert b1[1..][0] == b1[1] && b3[1..][0] == b3[1];
    assert ReleaseBack(b2, 0) == b3;
    assert ReleaseBack(b3, 1) == [Block(lo, 124, false), Block(lo + 144, s - 144, false)];
  }

  lemma SmallSizes()
    ensures AlignUp(4) == 4 && AlignUp(100) == 100 && AlignUp(16) == 16 && HEADER == 20
  {
  }

  lemma MallocTo(hs: seq<Heap>, ops: seq<Op>, k: nat, request: Word, p: Word)
    requires Run(hs, ops) && k < |ops| && ops[k] == Malloc(request, Some(p))
    ensures |hs| == |ops| + 1 && MallocStep(hs[k], request, Some(p), hs[k + 1])
    ensures var size, i := AlignUp(request), FirstFit(hs[k].blocks, AlignUp(request));
      && i < |hs[k].blocks| && hs[k + 1].blocks == Take(hs[k].blocks, i, size)
      && p == hs[k].blocks[i].addr + HEADER && hs[k + 1].lo == hs[k].lo
  {
    RunStep(hs, ops, k);
  }

  lemma FreeTo(hs: seq<Heap>, ops: seq<Op>, k: nat, p: Word)
    requires Run(hs, ops) && k < |ops| && ops[k] == Free(p, true)
    ensures |hs| == |ops| + 1 && FreeStep(hs[k], p, true, hs[k + 1]) && hs[k + 1].lo == hs[k].lo
    ensures var i := Find(hs[k].blocks, p - HEADER);
      i < |hs[k].blocks| && hs[k + 1].blocks == Release(hs[k].blocks, i)
  {
    RunStep(hs, ops, k);
    FreeParts(hs[k], p, true, hs[k + 1]);
  }

  lemma RevivedHere(h: Heap, lo: int, s: int)
    requires h.blocks == [Block(lo, s, false)] && s >= 200 && MagicIntact(h, lo + 24)
    ensures Revives(h, 16, lo + 24)
  {
    FourBlocks(lo, s);
    SmallSizes();
  }

  lemma LiveOne(lo: int, s: int, addr: int)
    requires addr != lo
    ensures forall b :: b in Live([Block(lo, 16, true), Block(lo + 36, s - 36, false)]) ==> b.addr != addr
  {
  }

  lemma TwoMallocs(h: Heap, h1: Heap, h2: Heap, p1: Word, p2: Word, lo: int, s: int)
    requires s >= 200 && h.blocks == [Block(lo, s, false)]
    requires var i := FirstFit(h.blocks, AlignUp(4));
      i < |h.blocks| && h1.blocks == Take(h.blocks, i, AlignUp(4)) && p1 == h.blocks[i].addr + HEADER
    requires var i := FirstFit(h1.blocks, AlignUp(100));
      i < |h1.blocks| && h2.blocks == Take(h1.blocks, i, AlignUp(100)) && p2 == h1.blocks[i].addr + HEADER
    ensures p1 == lo + HEADER && p2 == lo + 24 + HEADER
    ensures h2.blocks == [Block(lo, 4, true), Block(lo + 24, 100, true), Block(lo + 144, s - 144, false)]
  {
    hide *;
    FourBlocks(lo, s);
    SmallSizes();
  }

  lemma TwoFrees(h2: Heap, h3: Heap, h4: Heap, p1: Word, p2: Word, lo: int, s: int)
    requires s >= 200 && p1 == lo + HEADER && p2 == lo + 24 + HEADER
    requires h2.blocks == [Block(lo, 4, true), Block(lo + 24, 100, true), Block(lo + 144, s - 144, false)]
    requires var i := Find(h2.blocks, p1 - HEADER); i < |h2.blocks| && h3.blocks == Release(h2.blocks, i)
    requires var i := Find(h3.blocks, p2 - HEADER); i < |h3.blocks| && h4.blocks == Release(h3.blocks, i)
    ensures h4.blocks == [Block(lo, s, false)]
  {
    hide *;
    FourBlocks(lo, s);
    SmallSizes();
  }

  lemma ThenRevived(h3: Heap, h4: Heap, h5: Heap, p2: Word, p3: Word, lo: int, s: int)
    requires HeapInv(h3) && HeapInv(h4) && FreeStep(h3, p2, true, h4) && MallocStep(h4, 16, Some(p3), h5)
    requires s >= 200 && p2 == lo + 24 + HEADER && h4.blocks == [Block(lo, s, false)]
    ensures LooksLive(h5.words, h5.lo, p2)
    ensures forall b :: b in Live(h5.blocks) ==> b.addr != p2 - HEADER
  {
    hide *;
    FreeLeavesStale(h3, p2, h4);
    FreeLeavesMagic(h3, p2, h4);
    MallocRevives(h4, 16, p3, h5, p2 - HEADER);
    RevivedHere(h4, lo, s);
    MallocParts(h4, 16, p3, h5);
    FourBlocks(lo, s);
    SmallSizes();
    LiveOne(lo, s, lo + 24);
  }

  /** Five calls on a fresh heap, no write by any client: after malloc(4), malloc(100), freeing both and
      malloc(16), the second pointer passes the double-free test although it is not allocated. */
  lemma FiveCallsRevive(hs: seq<Heap>, p1: Word, p2: Word, p3: Word)
    requires Run(hs, [Malloc(4, Some(p1)), Malloc(100, Some(p2)), Free(p1, true), Free(p2, true), Malloc(16, Some(p3))])
    requires HeapInv(hs[0]) && exists s :: s >= 200 && hs[0].blocks == [Block(hs[0].lo, s, false)]
    ensures LooksLive(hs[5].words, hs[5].lo, p2)
    ensures forall b :: b in Live(hs[5].blocks) ==> b.addr != p2 - HEADER
  {
    var ops := [Malloc(4, Some(p1)), Malloc(100, Some(p2)), Free(p1, true), Free(p2, true), Malloc(16, Some(p3))];
    hide *;
    RunLength(hs, ops);
    var lo := hs[0].lo;
    var s :| s >= 200 && hs[0].blocks == [Block(lo, s, false)];
    MallocTo(hs, ops, 0, 4, p1);
    MallocTo(hs, ops, 1, 100, p2);
    TwoMallocs(hs[0], hs[1], hs[2], p1, p2, lo, s);
    FreeTo(hs, ops, 2, p1);
    FreeTo(hs, ops, 3, p2);
    TwoFrees(hs[2], hs[3], hs[4], p1, p2, lo, s);
    MallocTo(hs, ops, 4, 16, p3);
    RunKeepsInv(hs, ops, 3);
    RunKeepsInv(hs, ops, 4);
    ThenRevived(hs[3], hs[4], hs[5], p2, p3, lo, s);
  }
}
