/** What every run of the kernel heap keeps: calls of `malloc` and `free` in any order,
    interleaved with the clients' own writes to the payloads they hold. */
module HeapRuns {
  import opened Words
  import opened BlockList
  import opened HeapImage
  import opened KernelHeap

  datatype Op =
    | Malloc(request: Word, result: Option<Word>)
    | Free(ptr: Word, ok: bool)
    | Store(addr: int, value: Word)

  /** `addr` is a word of the payload of `b`. */
  predicate InPayload(b: Block, addr: int)
  {
    addr % 4 == 0 && b.addr + HEADER <= addr < b.End()
  }

  ghost predicate Step(h: Heap, op: Op, h': Heap)
  {
    match op
    case Malloc(request, result) => MallocStep(h, request, result, h')
    case Free(ptr, ok) => Freeable(h, ptr) && FreeStep(h, ptr, ok, h')
    case Store(addr, value) =>
      && (exists b :: b in Live(h.blocks) && InPayload(b, addr))
      && 0 <= Slot(h.lo, addr) < |h.words|
      && h' == h.(words := h.words[Slot(h.lo, addr) := value])
  }

  ghost predicate Run(hs: seq<Heap>, ops: seq<Op>)
  {
    |hs| == |ops| + 1 && forall i | 0 <= i < |ops| :: Step(hs[i], ops[i], hs[i + 1])
  }

  // ---------- the raw words always decode to one well-formed list ----------

  lemma PayloadSlot(lo: int, b: Block, addr: int)
    requires lo % 4 == 0 && Sound(b) && InPayload(b, addr)
    ensures Slot(lo, b.addr) + HEADER_WORDS <= Slot(lo, addr) < Slot(lo, b.End())
  {
  }

  lemma StoreKeepsInv(h: Heap, addr: int, value: Word, h': Heap)
    requires HeapInv(h) && Step(h, Store(addr, value), h')
    ensures HeapInv(h')
  {
    var b :| b in Live(h.blocks) && InPayload(b, addr);
    var i :| 0 <= i < |h.blocks| && h.blocks[i] == b;
    assert Sound(h.blocks[i]);
    PayloadSlot(h.lo, b, addr);
    PayloadOutside(h.blocks, h.lo, h.hi, i, Slot(h.lo, addr));
    forall j | 0 <= j < |h.blocks| ensures HeaderAt(h'.words, h.lo, h.blocks, j) {
      assert HeaderAt(h.words, h.lo, h.blocks, j) && !Covers(h.lo, h.blocks[j], Slot(h.lo, addr));
    }
  }

  lemma MallocKeepsInv(h: Heap, request: Word, r: Option<Word>, h': Heap)
    requires HeapInv(h) && MallocStep(h, request, r, h')
    ensures HeapInv(h') && h'.lo == h.lo && h'.hi == h.hi
  {
    var i := FirstFit(h.blocks, AlignUp(request));
    if i < |h.blocks| {
      TakeKeepsOrdered(h.blocks, i, AlignUp(request), h.lo, h.hi);
      TakeKeepsCoalesced(h.blocks, i, AlignUp(request));
      TakeKeepsAmple(h.blocks, i, AlignUp(request), h.lo, h.hi);
    }
  }

  lemma FreeKeepsInv(h: Heap, ptr: Word, ok: bool, h': Heap)
    requires HeapInv(h) && FreeStep(h, ptr, ok, h')
    ensures HeapInv(h') && h'.lo == h.lo && h'.hi == h.hi
  {
    if ok {
      ReleaseKeepsOrdered(h.blocks, Find(h.blocks, ptr - HEADER), h.lo, h.hi);
      ReleaseKeepsCoalesced(h.blocks, Find(h.blocks, ptr - HEADER));
      ReleaseKeepsAmple(h.blocks, Find(h.blocks, ptr - HEADER), h.lo, h.hi);
    }
  }

  lemma StepKeepsInv(h: Heap, op: Op, h': Heap)
    requires HeapInv(h) && Step(h, op, h')
    ensures HeapInv(h') && h'.lo == h.lo && h'.hi == h.hi
  {
    match op
    case Malloc(request, result) => MallocKeepsInv(h, request, result, h');
    case Free(ptr, ok) => FreeKeepsInv(h, ptr, ok, h');
    case Store(addr, value) => StoreKeepsInv(h, addr, value, h');
  }

  lemma RunLength(hs: seq<Heap>, ops: seq<Op>)
    requires Run(hs, ops)
    ensures |hs| == |ops| + 1
  {
  }

  lemma RunStep(hs: seq<Heap>, ops: seq<Op>, i: nat)
    requires Run(hs, ops) && i < |ops|
    ensures |hs| == |ops| + 1 && Step(hs[i], ops[i], hs[i + 1])
  {
  }

  lemma {:induction false} RunKeepsInv(hs: seq<Heap>, ops: seq<Op>, n: nat)
    requires Run(hs, ops) && HeapInv(hs[0]) && n <= |ops|
    ensures HeapInv(hs[n]) && hs[n].lo == hs[0].lo && hs[n].hi == hs[0].hi
  {
    hide *;
    if n > 0 {
      RunStep(hs, ops, n - 1);
      RunKeepsInv(hs, ops, n - 1);
      StepKeepsInv(hs[n - 1], ops[n - 1], hs[n]);
    }
  }

  /** There are no more blocks than memory has room for headers. */
  lemma {:induction false} BlocksFit(bs: seq<Block>, lo: int, hi: int, i: nat)
    requires Ordered(bs, lo, hi) && i < |bs|
    ensures bs[i].addr >= lo + HEADER * i
  {
    if i > 0 {
      BlocksFit(bs, lo, hi, i - 1);
      assert Apart(bs, i - 1) && Sound(bs[i - 1]);
    }
  }

  /** The five words of the header of block `i`: magic, next, prev, allocated, size. */
  ghost predicate RawHeader(h: Heap, i: nat)
    requires i < |h.blocks|
  {
    var k := (h.blocks[i].addr - h.lo) / 4;
    && 0 <= k && k + 5 <= |h.words|
    && h.words[k] == 1234567890
    && h.words[k + 1] == (if i + 1 < |h.blocks| then h.blocks[i + 1].addr else 0)
    && h.words[k + 2] == (if i > 0 then h.blocks[i - 1].addr else 0)
    && h.words[k + 3] == (if h.blocks[i].used then 1 else 0)
    && h.words[k + 4] == h.blocks[i].size
  }

  lemma HeadersRaw(h: Heap)
    requires Decodes(h.words, h.lo, h.blocks)
    ensures forall i | 0 <= i < |h.blocks| :: RawHeader(h, i)
  {
    forall i | 0 <= i < |h.blocks| ensures RawHeader(h, i) {
      assert HeaderAt(h.words, h.lo, h.blocks, i);
      var f := Read(h.words, Slot(h.lo, h.blocks[i].addr));
      assert f == Expected(h.blocks, i);
    }
  }

  /** In every state of every run the `next` pointers, followed from the first header
      through the raw words, visit exactly the blocks, in strictly increasing address order,
      and every header has the magic, the size and mark of its block and links both ways. */
  lemma RunDecodes(hs: seq<Heap>, ops: seq<Op>, n: nat)
    requires Run(hs, ops) && HeapInv(hs[0]) && n <= |ops|
    ensures var h := hs[n];
      && Follow(h.words, h.lo, h.lo, |h.words|) == h.blocks
      && Decodes(h.words, h.lo, h.blocks) && (forall i | 0 <= i < |h.blocks| :: RawHeader(h, i))
      && Ordered(h.blocks, hs[0].lo, hs[0].hi) && Coalesced(h.blocks)
  {
    RunKeepsInv(hs, ops, n);
    var h := hs[n];
    BlocksFit(h.blocks, h.lo, h.hi, |h.blocks| - 1);
    assert Sound(h.blocks[|h.blocks| - 1]);
    FollowDecodes(h.words, h.lo, h.hi, h.blocks, |h.words|);
    HeadersRaw(h);
  }

  // ---------- who owns what ----------

  /** A block taken from a free one is away from every live block. */
  lemma TakenApart(bs: seq<Block>, lo: int, hi: int, i: nat, size: int, c: Block)
    requires i < |bs| && !bs[i].used && c in Live(bs) && Ordered(bs, lo, hi) && Ordered(Take(bs, i, size), lo, hi)
    ensures var b := Block(bs[i].addr, size, true);
      c != b && (c.End() <= b.addr || b.End() <= c.addr)
  {
    TakeLive(bs, i, size);
    var k :| 0 <= k < |bs| && bs[k] == c;
    BlocksDistinct(bs, lo, hi, i, k);
    LiveDisjoint(Take(bs, i, size), lo, hi, Block(bs[i].addr, size, true), c);
  }

  /** A successful `malloc` returns an aligned payload inside the heap that overlaps no
      live one, and that is large enough unless rounding the request up wrapped. */
  lemma MallocGives(h: Heap, request: Word, p: Word, h': Heap)
    requires HeapInv(h) && MallocStep(h, request, Some(p), h')
    ensures var b := Block(p - HEADER, AlignUp(request), true);
      && p % 4 == 0 && h.lo + HEADER <= p < h.hi && b.End() <= h.hi
      && (request <= b.size <==> request <= 0xFFFF_FFFC)
      && (forall c | c in Live(h.blocks) :: c.End() <= b.addr || b.End() <= c.addr)
      && b !in Live(h.blocks) && Live(h'.blocks) == Live(h.blocks) + {b}
  {
    hide Take, Live, Ordered, Coalesced, Decodes, Bounded, Outside, Ample;
    var size := AlignUp(request);
    var i := FirstFit(h.blocks, size);
    var b := Block(p - HEADER, size, true);
    AlignUpCovers(request);
    AmpleStart(h.blocks, h.lo, h.hi, i);
    TakeLive(h.blocks, i, size);
    MallocKeepsInv(h, request, Some(p), h');
    LiveDisjoint(h'.blocks, h.lo, h.hi, b, b);
    forall c | c in Live(h.blocks) ensures c != b && (c.End() <= b.addr || b.End() <= c.addr) {
      TakenApart(h.blocks, h.lo, h.hi, i, size, c);
    }
  }

  /** `malloc` halts exactly when no free block is as large as the rounded request. */
  lemma MallocHalts(h: Heap, request: Word, r: Option<Word>, h': Heap)
    requires MallocStep(h, request, r, h')
    ensures r == None <==> forall b | b in h.blocks && !b.used :: b.size < AlignUp(request)
  {
    var i := FirstFit(h.blocks, AlignUp(request));
    if i < |h.blocks| { assert h.blocks[i] in h.blocks; }
  }

  /** `malloc` is first fit: every free block below the one it takes is too small. */
  lemma MallocFirstFit(h: Heap, request: Word, p: Word, h': Heap, b: Block)
    requires HeapInv(h) && MallocStep(h, request, Some(p), h')
    requires b in h.blocks && !b.used && b.addr < p - HEADER
    ensures b.size < AlignUp(request)
  {
    var i := FirstFit(h.blocks, AlignUp(request));
    var k :| 0 <= k < |h.blocks| && h.blocks[k] == b;
    assert Sound(h.blocks[i]);
    if i < k { OrderedFar(h.blocks, h.lo, h.hi, i, k); }
  }

  /** How one call changes the set of allocations its callers hold. */
  ghost function Held(held: set<Block>, op: Op): set<Block>
  {
    match op
    case Malloc(request, Some(p)) => held + {Block(p - HEADER, AlignUp(request), true)}
    case Free(ptr, true) => set b | b in held && b.addr != ptr - HEADER
    case _ => held
  }

  /** The allocations outstanding after the first `n` calls, read off the calls alone. */
  ghost function Outstanding(held: set<Block>, ops: seq<Op>, n: nat): set<Block>
    requires n <= |ops|
  {
    if n == 0 then held else Held(Outstanding(held, ops, n - 1), ops[n - 1])
  }

  lemma FreeLive(h: Heap, ptr: Word, h': Heap)
    requires HeapInv(h) && FreeStep(h, ptr, true, h')
    ensures Live(h'.blocks) == set b | b in Live(h.blocks) && b.addr != ptr - HEADER
  {
    var i := Find(h.blocks, ptr - HEADER);
    ReleaseLive(h.blocks, i, h.lo, h.hi);
    forall b | b in Live(h.blocks) && b.addr == ptr - HEADER ensures b == h.blocks[i] {
      var k :| 0 <= k < |h.blocks| && h.blocks[k] == b;
      FindAt(h.blocks, h.lo, h.hi, k);
    }
  }

  lemma StepLive(h: Heap, op: Op, h': Heap)
    requires HeapInv(h) && Step(h, op, h')
    ensures Live(h'.blocks) == Held(Live(h.blocks), op)
  {
    match op
    case Malloc(request, Some(p)) => MallocGives(h, request, p, h');
    case Free(ptr, true) => FreeLive(h, ptr, h');
    case _ =>
  }

  /** In every run the blocks in use are exactly the allocations returned and not yet freed. */
  lemma {:induction false} RunLive(hs: seq<Heap>, ops: seq<Op>, n: nat)
    requires Run(hs, ops) && HeapInv(hs[0]) && n <= |ops|
    ensures Live(hs[n].blocks) == Outstanding(Live(hs[0].blocks), ops, n)
  {
    hide Run, Step, HeapInv, Live, Held;
    if n > 0 {
      RunStep(hs, ops, n - 1);
      RunLive(hs, ops, n - 1);
      RunKeepsInv(hs, ops, n - 1);
      StepLive(hs[n - 1], ops[n - 1], hs[n]);
    }
  }

  /** ...and they never overlap. */
  lemma RunDisjoint(hs: seq<Heap>, ops: seq<Op>, n: nat, a: Block, b: Block)
    requires Run(hs, ops) && HeapInv(hs[0]) && n <= |ops|
    requires a in Outstanding(Live(hs[0].blocks), ops, n) && b in Outstanding(Live(hs[0].blocks), ops, n)
    ensures a != b ==> a.End() <= b.addr || b.End() <= a.addr
    ensures hs[0].lo <= a.addr && a.End() <= hs[0].hi && Sound(a)
  {
    RunLive(hs, ops, n);
    RunKeepsInv(hs, ops, n);
    LiveDisjoint(hs[n].blocks, hs[0].lo, hs[0].hi, a, b);
  }

  // ---------- client data survives ----------

  /** A live payload word is in memory, and in no header. */
  lemma PayloadWord(h: Heap, b: Block, addr: int)
    requires HeapInv(h) && b in Live(h.blocks) && InPayload(b, addr)
    ensures 0 <= Slot(h.lo, addr) < |h.words| && Outside(h.lo, h.blocks, Slot(h.lo, addr))
  {
    var i :| 0 <= i < |h.blocks| && h.blocks[i] == b;
    assert Sound(h.blocks[i]);
    BlockInside(h.blocks, h.lo, h.hi, h.words, i);
    PayloadSlot(h.lo, b, addr);
    PayloadOutside(h.blocks, h.lo, h.hi, i, Slot(h.lo, addr));
  }

  predicate Frees(op: Op, b: Block)
  {
    op.Free? && op.ok && op.ptr == b.addr + HEADER
  }

  predicate Writes(op: Op, addr: int)
  {
    op.Store? && op.addr == addr
  }

  lemma OtherSlot(lo: int, a: int, b: int)
    requires lo % 4 == 0 && a % 4 == 0 && b % 4 == 0 && a != b
    ensures Slot(lo, a) != Slot(lo, b)
  {
  }

  lemma StepKeepsPayload(h: Heap, op: Op, h': Heap, b: Block, addr: int)
    requires HeapInv(h) && Step(h, op, h') && b in Live(h.blocks) && InPayload(b, addr)
    requires !Frees(op, b) && !Writes(op, addr)
    ensures b in Live(h'.blocks)
    ensures 0 <= Slot(h.lo, addr) < |h.words| == |h'.words|
    ensures h'.words[Slot(h.lo, addr)] == h.words[Slot(h.lo, addr)]
  {
    StepKeepsInv(h, op, h');
    StepLive(h, op, h');
    PayloadWord(h, b, addr);
    PayloadWord(h', b, addr);
    if op.Store? {
      var c :| c in Live(h.blocks) && InPayload(c, op.addr);
      OtherSlot(h.lo, op.addr, addr);
    }
  }

  /** In every run, a word of a payload that is neither freed nor written by its owner is
      never touched: it survives every split and every merge around it. */
  lemma {:induction false} RunKeepsPayload(hs: seq<Heap>, ops: seq<Op>, n: nat, b: Block, addr: int)
    requires Run(hs, ops) && HeapInv(hs[0]) && n <= |ops|
    requires b in Live(hs[0].blocks) && InPayload(b, addr)
    requires forall i | 0 <= i < n :: !Frees(ops[i], b) && !Writes(ops[i], addr)
    ensures b in Live(hs[n].blocks)
    ensures 0 <= Slot(hs[0].lo, addr) < |hs[0].words| == |hs[n].words|
    ensures hs[n].words[Slot(hs[0].lo, addr)] == hs[0].words[Slot(hs[0].lo, addr)]
  {
    hide *;
    RunLength(hs, ops);
    if n == 0 {
      PayloadWord(hs[0], b, addr);
    } else {
      RunStep(hs, ops, n - 1);
      RunKeepsPayload(hs, ops, n - 1, b, addr);
      RunKeepsInv(hs, ops, n - 1);
      StepKeepsPayload(hs[n - 1], ops[n - 1], hs[n], b, addr);
    }
  }

  // ---------- the leak, exactly ----------

  /** Bytes a call loses for good. */
  function StepLoss(h: Heap, op: Op): int
  {
    match op
    case Malloc(request, Some(_)) =>
      var i := FirstFit(h.blocks, AlignUp(request));
      if i < |h.blocks| then Slack(h.blocks[i], AlignUp(request)) else 0
    case _ => 0
  }

  /** The call was a `malloc` that did not split. */
  predicate Unsplit(h: Heap, op: Op)
  {
    && op.Malloc? && op.result.Some?
    && var i := FirstFit(h.blocks, AlignUp(op.request));
    i < |h.blocks| && !Splits(h.blocks[i], AlignUp(op.request))
  }

  function RunLoss(hs: seq<Heap>, ops: seq<Op>, n: nat): int
    requires n <= |ops| < |hs|
  {
    if n == 0 then 0 else RunLoss(hs, ops, n - 1) + StepLoss(hs[n - 1], ops[n - 1])
  }

  function RunUnsplit(hs: seq<Heap>, ops: seq<Op>, n: nat): nat
    requires n <= |ops| < |hs|
  {
    if n == 0 then 0 else RunUnsplit(hs, ops, n - 1) + if Unsplit(hs[n - 1], ops[n - 1]) then 1 else 0
  }

  lemma MallocGaps(h: Heap, request: Word, p: Word, h': Heap)
    requires HeapInv(h) && MallocStep(h, request, Some(p), h')
    ensures Gaps(h'.blocks, h.hi) == Gaps(h.blocks, h.hi) + StepLoss(h, Malloc(request, Some(p)))
    ensures 0 <= StepLoss(h, Malloc(request, Some(p))) <= if Unsplit(h, Malloc(request, Some(p))) then HEADER else 0
  {
    var i := FirstFit(h.blocks, AlignUp(request));
    MallocKeepsInv(h, request, Some(p), h');
    GapsAccount(h.blocks, h.hi);
    GapsAccount(h'.blocks, h.hi);
    assert Sound(h.blocks[i]);
    TakeTotal(h.blocks, i, AlignUp(request));
  }

  lemma FreeGaps(h: Heap, ptr: Word, h': Heap)
    requires HeapInv(h) && FreeStep(h, ptr, true, h')
    ensures Gaps(h'.blocks, h.hi) == Gaps(h.blocks, h.hi)
  {
    FreeKeepsInv(h, ptr, true, h');
    GapsAccount(h.blocks, h.hi);
    GapsAccount(h'.blocks, h.hi);
    ReleaseTotal(h.blocks, Find(h.blocks, ptr - HEADER));
  }

  lemma StepGaps(h: Heap, op: Op, h': Heap)
    requires HeapInv(h) && Step(h, op, h')
    ensures Gaps(h'.blocks, h.hi) == Gaps(h.blocks, h.hi) + StepLoss(h, op)
    ensures 0 <= StepLoss(h, op) <= if Unsplit(h, op) then HEADER else 0
  {
    match op
    case Malloc(request, Some(p)) => MallocGaps(h, request, p, h');
    case Free(ptr, true) => FreeGaps(h, ptr, h');
    case _ =>
  }

  /** The bytes no block covers are those unsplit `malloc`s cut off, at most 20 each:
      nothing else loses memory and nothing gets it back. */
  lemma {:induction false} RunGaps(hs: seq<Heap>, ops: seq<Op>, n: nat)
    requires Run(hs, ops) && HeapInv(hs[0]) && n <= |ops|
    ensures Gaps(hs[n].blocks, hs[0].hi) == Gaps(hs[0].blocks, hs[0].hi) + RunLoss(hs, ops, n)
    ensures 0 <= RunLoss(hs, ops, n) <= HEADER * RunUnsplit(hs, ops, n)
  {
    hide Gaps, StepLoss, Unsplit, HeapInv, Run, Step;
    if n > 0 {
      RunStep(hs, ops, n - 1);
      RunGaps(hs, ops, n - 1);
      RunKeepsInv(hs, ops, n - 1);
      StepGaps(hs[n - 1], ops[n - 1], hs[n]);
    }
  }

  lemma HeapInvParts(h: Heap)
    requires HeapInv(h)
    ensures Inv(h.blocks, h.lo, h.hi)
  {
  }

  lemma NothingLive(addr: int, size: int)
    ensures Live([Block(addr, size, false)]) == {}
  {
  }

  /** Once everything allocated since `Initialize` has been freed, in whatever order, the
      heap is a single free block that lacks only the bytes lost on the way. */
  lemma RunDrains(hs: seq<Heap>, ops: seq<Op>, n: nat)
    requires Run(hs, ops) && HeapInv(hs[0]) && n <= |ops|
    requires hs[0].blocks == [Block(hs[0].lo, hs[0].hi - hs[0].lo - HEADER, false)]
    requires Outstanding({}, ops, n) == {}
    ensures hs[n].blocks == [Block(hs[0].lo, hs[0].hi - hs[0].lo - HEADER - RunLoss(hs, ops, n), false)]
  {
    hide *;
    RunLength(hs, ops);
    NothingLive(hs[0].lo, hs[0].hi - hs[0].lo - HEADER);
    RunLive(hs, ops, n);
    RunKeepsInv(hs, ops, n);
    RunGaps(hs, ops, n);
    HeapInvParts(hs[0]);
    HeapInvParts(hs[n]);
    NothingLiveOneBlock(hs[0].blocks, hs[0].lo, hs[0].hi);
    NothingLiveOneBlock(hs[n].blocks, hs[0].lo, hs[0].hi);
  }

  // ---------- undo ----------

  lemma FreshFound(h: Heap, request: Word, p: Word, h1: Heap)
    requires HeapInv(h) && MallocStep(h, request, Some(p), h1)
    ensures var i := FirstFit(h.blocks, AlignUp(request));
      && i < |h.blocks| && !h.blocks[i].used && AlignUp(request) <= h.blocks[i].size
      && h1.blocks == Take(h.blocks, i, AlignUp(request)) && h1.blocks != []
      && Find(h1.blocks, p - HEADER) == i && LooksLive(h1.words, h1.lo, p)
      && Inv(h.blocks, h.lo, h.hi)
  {
    var size := AlignUp(request);
    var i := FirstFit(h.blocks, size);
    MallocKeepsInv(h, request, Some(p), h1);
    assert h1.blocks[i] == Block(p - HEADER, size, true);
    FindAt(h1.blocks, h.lo, h.hi, i);
    assert HeaderAt(h1.words, h.lo, h1.blocks, i);
  }

  lemma FreeParts(h: Heap, ptr: Word, ok: bool, h': Heap)
    requires FreeStep(h, ptr, ok, h')
    ensures ok == LooksLive(h.words, h.lo, ptr) && (!ok ==> h' == h) && h'.lo == h.lo && h'.hi == h.hi
    ensures ok ==> var i := Find(h.blocks, ptr - HEADER);
      i < |h.blocks| && h.blocks[i].used && h'.blocks == Release(h.blocks, i)
  {
  }

  /** Freeing a fresh allocation at once is accepted and restores the block list, except
      that a block that was not split has lost its slack. */
  lemma MallocFreeUndo(h: Heap, request: Word, p: Word, h1: Heap, ok: bool, h2: Heap)
    requires HeapInv(h) && MallocStep(h, request, Some(p), h1) && FreeStep(h1, p, ok, h2)
    ensures var i := FirstFit(h.blocks, AlignUp(request));
      && ok && i < |h.blocks|
      && h2.blocks == if Splits(h.blocks[i], AlignUp(request)) then h.blocks
                      else h.blocks[i := h.blocks[i].(size := AlignUp(request))]
  {
    hide *;
    FreshFound(h, request, p, h1);
    FreeParts(h1, p, ok, h2);
    ReleaseUndoesTake(h.blocks, FirstFit(h.blocks, AlignUp(request)), AlignUp(request));
  }

  // ---------- double free ----------

  /** Neither the header of `b` nor, when it is in use, its payload overlaps the header at `addr`. */
  predicate SparesHeader(b: Block, addr: int)
  {
    if b.addr == addr then !b.used
    else addr + HEADER <= b.addr || (if b.used then b.End() else b.addr + HEADER) <= addr
  }

  ghost predicate Spared(bs: seq<Block>, addr: int)
  {
    forall i | 0 <= i < |bs| :: SparesHeader(bs[i], addr)
  }

  /** The header at `addr` was released and nothing can have overwritten it since. */
  ghost predicate Stale(h: Heap, addr: int)
  {
    && addr % 4 == 0 && h.lo <= addr <= h.hi - HEADER
    && InRange(h.words, Slot(h.lo, addr))
    && h.words[Slot(h.lo, addr) + F_ALLOCATED] == 0
    && Spared(h.blocks, addr)
  }

  lemma ReleasedSpared(bs: seq<Block>, i: nat, lo: int, hi: int)
    requires Ordered(bs, lo, hi) && i < |bs|
    ensures Spared(Release(bs, i), bs[i].addr)
  {
    forall m | 0 <= m < |Release(bs, i)| ensures SparesHeader(Release(bs, i)[m], bs[i].addr) {
      var o := ReleaseOrigin(bs, i, m);
      assert Sound(bs[o]) && Sound(bs[i]);
      if o < i { OrderedFar(bs, lo, hi, o, i); }
      if i < o { OrderedFar(bs, lo, hi, i, o); }
    }
  }

  lemma ReleaseSpares(bs: seq<Block>, i: nat, lo: int, hi: int, addr: int)
    requires Ordered(bs, lo, hi) && i < |bs| && Spared(bs, addr)
    ensures Spared(Release(bs, i), addr)
  {
    forall m | 0 <= m < |Release(bs, i)| ensures SparesHeader(Release(bs, i)[m], addr) {
      var o := ReleaseOrigin(bs, i, m);
      assert SparesHeader(bs[o], addr) && Sound(bs[o]);
    }
  }

  lemma FreeLeavesStale(h: Heap, ptr: Word, h': Heap)
    requires HeapInv(h) && FreeStep(h, ptr, true, h')
    ensures Stale(h', ptr - HEADER)
  {
    var i := Find(h.blocks, ptr - HEADER);
    ReleasedSpared(h.blocks, i, h.lo, h.hi);
    BlockInside(h.blocks, h.lo, h.hi, h.words, i);
    assert Sound(h.blocks[i]);
    assert HeaderKept(h.lo, h.blocks[i], ptr - HEADER, h.words, h'.words);
  }

  /** A successful `free` leaves the mark of a stale header at 0. */
  lemma StaleMark(h: Heap, ptr: Word, h': Heap, addr: int)
    requires HeapInv(h) && Stale(h, addr) && FreeStep(h, ptr, true, h')
    ensures InRange(h'.words, Slot(h.lo, addr)) && h'.words[Slot(h.lo, addr) + F_ALLOCATED] == 0
  {
    var k := Find(h.blocks, addr);
    if k < |h.blocks| {
      assert HeaderKept(h.lo, h.blocks[k], ptr - HEADER, h.words, h'.words);
    } else {
      forall i | 0 <= i < |h.blocks| ensures !Covers(h.lo, h.blocks[i], Slot(h.lo, addr) + F_ALLOCATED) {
        assert SparesHeader(h.blocks[i], addr) && Sound(h.blocks[i]) && h.blocks[i] in h.blocks;
      }
    }
  }

  lemma StaleParts(h: Heap, addr: int)
    requires HeapInv(h) && Stale(h, addr)
    ensures Ordered(h.blocks, h.lo, h.hi) && Spared(h.blocks, addr)
  {
  }

  lemma StaleIs(h: Heap, h': Heap, addr: int)
    requires Stale(h, addr) && h'.lo == h.lo && h'.hi == h.hi && Spared(h'.blocks, addr)
    requires InRange(h'.words, Slot(h.lo, addr)) && h'.words[Slot(h.lo, addr) + F_ALLOCATED] == 0
    ensures Stale(h', addr)
  {
  }

  lemma FreeKeepsStale(h: Heap, ptr: Word, ok: bool, h': Heap, addr: int)
    requires HeapInv(h) && Stale(h, addr) && FreeStep(h, ptr, ok, h')
    ensures Stale(h', addr)
  {
    hide *;
    FreeParts(h, ptr, ok, h');
    if ok {
      StaleParts(h, addr);
      ReleaseSpares(h.blocks, Find(h.blocks, ptr - HEADER), h.lo, h.hi, addr);
      StaleMark(h, ptr, h', addr);
      StaleIs(h, h', addr);
    }
  }

  lemma StoreKeepsStale(h: Heap, at: int, value: Word, h': Heap, addr: int)
    requires HeapInv(h) && Stale(h, addr) && Step(h, Store(at, value), h')
    ensures Stale(h', addr)
  {
    var b :| b in Live(h.blocks) && InPayload(b, at);
    var i :| 0 <= i < |h.blocks| && h.blocks[i] == b;
    assert SparesHeader(h.blocks[i], addr) && Sound(b);
  }

  /** The blocks a `malloc` makes, the one handed out and the remainder of a split, leave the
      header at `addr` alone. Every other call does. */
  predicate Spares(h: Heap, op: Op, addr: int)
  {
    match op
    case Malloc(request, Some(_)) =>
      var size, i := AlignUp(request), FirstFit(h.blocks, AlignUp(request));
      i < |h.blocks| ==>
        var b := h.blocks[i];
        && SparesHeader(Block(b.addr, size, true), addr)
        && (Splits(b, size) ==> SparesHeader(Block(b.addr + HEADER + size, b.size - size - HEADER, false), addr))
    case _ => true
  }

  lemma SparedWord(lo: int, hi: int, w: seq<Word>, w': seq<Word>, bs: seq<Block>, addr: int)
    requires Ordered(bs, lo, hi) && Bounded(lo, hi, w') && Decodes(w', lo, bs) && Spared(bs, addr)
    requires addr % 4 == 0 && InRange(w, Slot(lo, addr)) && |w'| == |w| && w[Slot(lo, addr) + F_ALLOCATED] == 0
    requires forall k | 0 <= k < |w| && Outside(lo, bs, k) :: w'[k] == w[k]
    ensures w'[Slot(lo, addr) + F_ALLOCATED] == 0
  {
    var k := Find(bs, addr);
    if k < |bs| {
      assert SparesHeader(bs[k], addr) && HeaderAt(w', lo, bs, k);
    } else {
      forall i | 0 <= i < |bs| ensures !Covers(lo, bs[i], Slot(lo, addr) + F_ALLOCATED) {
        assert SparesHeader(bs[i], addr) && Sound(bs[i]) && bs[i] in bs;
      }
    }
  }

  lemma TakeSpares(bs: seq<Block>, i: nat, size: int, addr: int)
    requires i < |bs| && Spared(bs, addr)
    ensures Spared(Take(bs, i, size), addr) <==>
      && SparesHeader(Block(bs[i].addr, size, true), addr)
      && (Splits(bs[i], size) ==>
            SparesHeader(Block(bs[i].addr + HEADER + size, bs[i].size - size - HEADER, false), addr))
  {
    hide Take, SparesHeader, Splits;
    var r := Take(bs, i, size);
    TakeLength(bs, i, size);
    TakeAt(bs, i, size, i);
    if Splits(bs[i], size) { TakeAt(bs, i, size, i + 1); }
    forall m | 0 <= m < |r| && m != i && !(Splits(bs[i], size) && m == i + 1) ensures SparesHeader(r[m], addr) {
      TakeAt(bs, i, size, m);
      assert SparesHeader(bs[if m < i || !Splits(bs[i], size) then m else m - 1], addr);
    }
    if Spared(r, addr) { assert SparesHeader(r[i], addr); }
  }

  /** A `malloc` keeps a stale header stale exactly when its blocks spare it. */
  lemma MallocKeepsStale(h: Heap, request: Word, r: Option<Word>, h': Heap, addr: int)
    requires HeapInv(h) && Stale(h, addr) && MallocStep(h, request, r, h')
    ensures Stale(h', addr) <==> Spares(h, Malloc(request, r), addr)
  {
    var i := FirstFit(h.blocks, AlignUp(request));
    if i < |h.blocks| {
      MallocKeepsInv(h, request, r, h');
      TakeSpares(h.blocks, i, AlignUp(request), addr);
      if Spared(h'.blocks, addr) {
        SparedWord(h.lo, h.hi, h.words, h'.words, h'.blocks, addr);
      }
    }
  }

  lemma {:induction false} RunKeepsStale(hs: seq<Heap>, ops: seq<Op>, n: nat, addr: int)
    requires Run(hs, ops) && HeapInv(hs[0]) && n <= |ops| && Stale(hs[0], addr)
    requires forall i | 0 <= i < n :: Spares(hs[i], ops[i], addr)
    ensures HeapInv(hs[n]) && Stale(hs[n], addr)
  {
    if n > 0 {
      RunStep(hs, ops, n - 1);
      RunKeepsStale(hs, ops, n - 1, addr);
      RunKeepsInv(hs, ops, n);
      match ops[n - 1]
      case Free(ptr, ok) => FreeKeepsStale(hs[n - 1], ptr, ok, hs[n], addr);
      case Store(at, value) => StoreKeepsStale(hs[n - 1], at, value, hs[n], addr);
      case Malloc(request, r) => MallocKeepsStale(hs[n - 1], request, r, hs[n], addr);
    }
  }

  lemma StaleIsRefused(h: Heap, p: Word)
    requires Stale(h, p - HEADER)
    ensures Freeable(h, p) && !LooksLive(h.words, h.lo, p)
  {
  }

  /** Freeing a pointer that was freed before is refused, and is safe to try, whatever other calls
      and client writes came in between, as long as no block made since lies over its old header. */
  lemma DoubleFreeRefused(h: Heap, p: Word, hs: seq<Heap>, ops: seq<Op>, n: nat)
    requires Run(hs, ops) && n <= |ops| && HeapInv(h) && FreeStep(h, p, true, hs[0])
    requires forall i | 0 <= i < n :: Spares(hs[i], ops[i], p - HEADER)
    ensures Freeable(hs[n], p) && forall ok, h' | FreeStep(hs[n], p, ok, h') :: !ok && h' == hs[n]
  {
    hide *;
    RunLength(hs, ops);
    FreeKeepsInv(h, p, true, hs[0]);
    FreeLeavesStale(h, p, hs[0]);
    RunKeepsStale(hs, ops, n, p - HEADER);
    StaleIsRefused(hs[n], p);
    forall ok, h' | FreeStep(hs[n], p, ok, h') ensures !ok && h' == hs[n] {
      FreeParts(hs[n], p, ok, h');
    }
  }

  /** In particular without any `malloc` in between. */
  lemma FreedTwiceRefused(h: Heap, p: Word, hs: seq<Heap>, ops: seq<Op>, n: nat)
    requires Run(hs, ops) && n <= |ops| && HeapInv(h) && FreeStep(h, p, true, hs[0])
    requires forall i | 0 <= i < n :: !ops[i].Malloc?
    ensures Freeable(hs[n], p) && forall ok, h' | FreeStep(hs[n], p, ok, h') :: !ok && h' == hs[n]
  {
    DoubleFreeRefused(h, p, hs, ops, n);
  }
}
