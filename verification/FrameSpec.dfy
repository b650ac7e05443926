/** The physical frame allocator as a set of frames: what each call does to the bits and
    to the counter, when the two agree, and what every run of calls keeps. */
module FrameSpec {
  import opened Words

  const BLOCK_SIZE := 4096

  /** One bit per frame (true: in use), the counter of used frames, the number of frames. */
  datatype Frames = Frames(bits: seq<bool>, used: Word, max: Word)

  /** `bits` with the `n` positions from `f` on set to `v`. */
  function Fill(bits: seq<bool>, f: nat, n: nat, v: bool): (r: seq<bool>)
    ensures |r| == |bits|
    ensures forall i :: 0 <= i < |bits| ==> r[i] == if f <= i < f + n then v else bits[i]
  {
    seq(|bits|, i requires 0 <= i < |bits| => if f <= i < f + n then v else bits[i])
  }

  /** Index of the first clear bit, or |bits|. */
  function FirstClear(bits: seq<bool>): (f: nat)
    ensures f <= |bits| && (f < |bits| ==> !bits[f])
    ensures forall k :: 0 <= k < f ==> bits[k]
  {
    if bits == [] || !bits[0] then 0 else 1 + FirstClear(bits[1..])
  }

  // ---------- the calls ----------

  predicate InBitmap(s: Frames, base: Word, size: Word)
  {
    base / BLOCK_SIZE + size / BLOCK_SIZE <= |s.bits| && 0 < |s.bits|
  }

  function MarkedFree(s: Frames, base: Word, size: Word): Frames
    requires InBitmap(s, base, size)
  {
    s.(bits := Fill(s.bits, base / BLOCK_SIZE, size / BLOCK_SIZE, false)[0 := true],
       used := (s.used - size / BLOCK_SIZE) % TWO32)
  }

  function MarkedUsed(s: Frames, base: Word, size: Word): Frames
    requires InBitmap(s, base, size)
  {
    s.(bits := Fill(s.bits, base / BLOCK_SIZE, size / BLOCK_SIZE, true)[0 := true],
       used := (s.used + size / BLOCK_SIZE) % TWO32)
  }

  /** `FreeBlocks(ptr, count)`. */
  function Freed(s: Frames, ptr: Word, count: Word): Frames
    requires ptr / BLOCK_SIZE + count <= |s.bits|
  {
    s.(bits := Fill(s.bits, ptr / BLOCK_SIZE, count, false), used := (s.used - count) % TWO32)
  }

  /** The scan looks at `max` words and meets a clear bit. */
  predicate ScanHits(s: Frames)
  {
    FirstClear(s.bits) < |s.bits| && FirstClear(s.bits) / 32 < s.max
  }

  /** The scan never leaves the bitmap: it stops at a clear bit, or `max` words are there. */
  predicate ScanStays(s: Frames)
  {
    ScanHits(s) || 32 * s.max <= |s.bits|
  }

  /** `AllocateBlock` finds a frame: the counter does not say full and the scan hits. */
  predicate Allocates(s: Frames)
  {
    s.used != s.max && ScanHits(s)
  }

  function Allocated(s: Frames): Frames
  {
    if Allocates(s) then s.(bits := s.bits[FirstClear(s.bits) := true], used := (s.used + 1) % TWO32) else s
  }

  /** The address `AllocateBlock` returns; 0 is its null. */
  function AllocatedAddr(s: Frames): int
  {
    if Allocates(s) then FirstClear(s.bits) * BLOCK_SIZE else 0
  }

  // ---------- accounting ----------

  function CountTo(bits: seq<bool>, n: nat): nat
    requires n <= |bits|
  {
    if n == 0 then 0 else CountTo(bits, n - 1) + if bits[n - 1] then 1 else 0
  }

  /** The bitmap of at most 2^20 frames covers all `max` of them. */
  predicate Sized(s: Frames)
  {
    s.max <= |s.bits| <= 0x10_0000
  }

  /** The counter is the number of used frames. */
  predicate Accounted(s: Frames)
  {
    Sized(s) && s.used == CountTo(s.bits, s.max)
  }

  lemma {:induction false} CountBound(bits: seq<bool>, n: nat)
    requires n <= |bits|
    ensures CountTo(bits, n) <= n
    ensures CountTo(bits, n) == n <==> forall k :: 0 <= k < n ==> bits[k]
  {
    if n > 0 { CountBound(bits, n - 1); }
  }

  lemma {:induction false} CountUpdate(bits: seq<bool>, f: nat, v: bool, n: nat)
    requires f < |bits| && n <= |bits|
    ensures CountTo(bits[f := v], n)
         == CountTo(bits, n) + if f < n && v && !bits[f] then 1 else if f < n && !v && bits[f] then -1 else 0
  {
    if n > 0 { CountUpdate(bits, f, v, n - 1); }
  }

  /** How many of the `n` frames from `f` on are below `max` and have bit `v`. */
  function InState(bits: seq<bool>, f: nat, n: nat, v: bool, max: nat): nat
    requires f + n <= |bits|
  {
    if n == 0 then 0
    else InState(bits, f, n - 1, v, max) + if f + n - 1 < max && bits[f + n - 1] == v then 1 else 0
  }

  predicate AllInState(bits: seq<bool>, f: nat, n: nat, v: bool, max: nat)
    requires f + n <= |bits|
  {
    forall i :: f <= i < f + n ==> i < max && bits[i] == v
  }

  lemma {:induction false} InStateBound(bits: seq<bool>, f: nat, n: nat, v: bool, max: nat)
    requires f + n <= |bits|
    ensures InState(bits, f, n, v, max) <= n
    ensures InState(bits, f, n, v, max) == n <==> AllInState(bits, f, n, v, max)
  {
    if n > 0 {
      InStateBound(bits, f, n - 1, v, max);
      var last := f + n - 1;
      if AllInState(bits, f, n, v, max) { assert bits[last] == v && last < max; }
    }
  }

  lemma {:induction false} CountFill(bits: seq<bool>, f: nat, n: nat, v: bool, max: nat)
    requires f + n <= |bits| && max <= |bits|
    ensures CountTo(Fill(bits, f, n, v), max)
         == CountTo(bits, max) + (if v then 1 else -1) * InState(bits, f, n, !v, max)
  {
    if n == 0 {
      assert Fill(bits, f, 0, v) == bits;
    } else {
      CountFill(bits, f, n - 1, v, max);
      var b := Fill(bits, f, n - 1, v);
      CountUpdate(b, f + n - 1, v, max);
      assert Fill(bits, f, n, v) == b[f + n - 1 := v];
    }
  }

  /** The number of used frames after a range was freed and frame 0 reserved. */
  lemma CountMarkedFree(bits: seq<bool>, f: nat, n: nat, max: nat)
    requires f + n <= |bits| && 0 < max <= |bits|
    ensures CountTo(Fill(bits, f, n, false)[0 := true], max)
         == CountTo(bits, max) - InState(bits, f, n, true, max)
            + if bits[0] && !(f == 0 && n > 0) then 0 else 1
  {
    CountFill(bits, f, n, false, max);
    CountUpdate(Fill(bits, f, n, false), 0, true, max);
  }

  /** Two counts of frames that agree modulo 2^32 are equal. */
  lemma CounterWrap(x: int, y: int)
    requires -0x10_0000 <= x <= 0x20_0000 && 0 <= y <= 0x10_0000
    ensures x % TWO32 == y <==> x == y
  {
    if x < 0 { assert x % TWO32 == x + TWO32; }
  }

  /** `MarkFree` keeps the counter right exactly when every frame of the range was a
      used frame of memory, frame 0 was in use, and the range leaves frame 0 out. */
  lemma MarkFreeAccounts(s: Frames, base: Word, size: Word)
    requires Accounted(s) && InBitmap(s, base, size) && 0 < s.max
    ensures var f, n := base / BLOCK_SIZE, size / BLOCK_SIZE;
      Accounted(MarkedFree(s, base, size))
      <==> AllInState(s.bits, f, n, true, s.max) && s.bits[0] && (f == 0 ==> n == 0)
  {
    var f, n := base / BLOCK_SIZE, size / BLOCK_SIZE;
    CountMarkedFree(s.bits, f, n, s.max);
    InStateBound(s.bits, f, n, true, s.max);
    CountBound(s.bits, s.max);
    CountBound(Fill(s.bits, f, n, false)[0 := true], s.max);
    CounterWrap(s.used - n, CountTo(Fill(s.bits, f, n, false)[0 := true], s.max));
  }

  /** Reserving frame 0 after marking the range uses a frame that the counter misses. */
  predicate ReservesUncounted(s: Frames, f: nat, n: nat)
    requires 0 < |s.bits|
  {
    0 < s.max && !s.bits[0] && !(f == 0 && n > 0)
  }

  lemma CountMarkedUsed(s: Frames, f: nat, n: nat)
    requires f + n <= |s.bits| && 0 < |s.bits| && s.max <= |s.bits|
    ensures CountTo(Fill(s.bits, f, n, true)[0 := true], s.max)
         == CountTo(s.bits, s.max) + InState(s.bits, f, n, false, s.max)
            + if ReservesUncounted(s, f, n) then 1 else 0
  {
    CountFill(s.bits, f, n, true, s.max);
    CountUpdate(Fill(s.bits, f, n, true), 0, true, s.max);
  }

  /** `MarkUsed` keeps the counter right exactly when every frame of the range was a free frame
      of memory, or, if reserving frame 0 takes one frame more, when all but one of them were. */
  lemma MarkUsedAccounts(s: Frames, base: Word, size: Word)
    requires Accounted(s) && InBitmap(s, base, size)
    ensures var f, n := base / BLOCK_SIZE, size / BLOCK_SIZE;
      Accounted(MarkedUsed(s, base, size))
      <==> (if ReservesUncounted(s, f, n) then InState(s.bits, f, n, false, s.max) == n - 1
            else AllInState(s.bits, f, n, false, s.max))
  {
    var f, n := base / BLOCK_SIZE, size / BLOCK_SIZE;
    CountMarkedUsed(s, f, n);
    InStateBound(s.bits, f, n, false, s.max);
    CountBound(s.bits, s.max);
    CountBound(Fill(s.bits, f, n, true)[0 := true], s.max);
    CounterWrap(s.used + n, CountTo(Fill(s.bits, f, n, true)[0 := true], s.max));
  }

  /** `FreeBlocks` keeps the counter right exactly when every frame it clears was a used
      frame of memory. */
  lemma FreeBlocksAccounts(s: Frames, ptr: Word, count: Word)
    requires Accounted(s) && ptr / BLOCK_SIZE + count <= |s.bits|
    ensures Accounted(Freed(s, ptr, count)) <==> AllInState(s.bits, ptr / BLOCK_SIZE, count, true, s.max)
  {
    var f := ptr / BLOCK_SIZE;
    CountFill(s.bits, f, count, false, s.max);
    InStateBound(s.bits, f, count, true, s.max);
    CountBound(s.bits, s.max);
    CountBound(Freed(s, ptr, count).bits, s.max);
    CounterWrap(s.used - count, CountTo(Freed(s, ptr, count).bits, s.max));
  }

  /** With a right counter, `AllocateBlock` succeeds exactly when a frame of memory is
      free, returns the first one, never scans past the bitmap, and keeps the counter right. */
  lemma AllocateAccounts(s: Frames)
    requires Accounted(s)
    ensures Allocates(s) <==> exists f :: 0 <= f < s.max && !s.bits[f]
    ensures Allocates(s) ==> FirstClear(s.bits) < s.max
    ensures s.used != s.max ==> ScanStays(s)
    ensures Accounted(Allocated(s))
  {
    CountBound(s.bits, s.max);
    if Allocates(s) {
      CountUpdate(s.bits, FirstClear(s.bits), true, s.max);
      CountBound(s.bits[FirstClear(s.bits) := true], s.max);
    }
  }

  /** A successful allocation takes the lowest free frame and returns its address; it changes no other frame
      and counts one more. */
  lemma AllocatesLowest(s: Frames)
    requires Accounted(s) && Allocates(s)
    ensures var f := AllocatedAddr(s) / 4096;
      && 0 <= f < s.max && AllocatedAddr(s) == 4096 * f && !s.bits[f] && (forall k :: 0 <= k < f ==> s.bits[k])
      && Allocated(s).bits == s.bits[f := true] && Allocated(s).used == s.used + 1 && Allocated(s).max == s.max
  {
    AllocateAccounts(s);
    CountBound(s.bits, s.max);
    assert FirstClear(s.bits) * 4096 / 4096 == FirstClear(s.bits);
  }

  // ---------- runs ----------

  datatype Call =
    | MarkFree(base: Word, size: Word)
    | MarkUsed(base: Word, size: Word)
    | FreeBlocks(ptr: Word, count: Word)
    | AllocateBlock(addr: Word)

  ghost predicate Step(s: Frames, c: Call, s': Frames)
  {
    match c
    case MarkFree(base, size) => InBitmap(s, base, size) && s' == MarkedFree(s, base, size)
    case MarkUsed(base, size) => InBitmap(s, base, size) && s' == MarkedUsed(s, base, size)
    case FreeBlocks(ptr, count) => ptr / BLOCK_SIZE + count <= |s.bits| && s' == Freed(s, ptr, count)
    case AllocateBlock(addr) =>
      && (s.used != s.max ==> ScanStays(s))
      && s' == Allocated(s) && addr == AllocatedAddr(s)
  }

  ghost predicate Run(ss: seq<Frames>, cs: seq<Call>)
  {
    |ss| == |cs| + 1 && forall i | 0 <= i < |cs| :: Step(ss[i], cs[i], ss[i + 1])
  }

  /** The call makes frame `f` available again. */
  predicate Releases(c: Call, f: nat)
  {
    match c
    case MarkFree(base, size) => base / BLOCK_SIZE <= f < base / BLOCK_SIZE + size / BLOCK_SIZE && f != 0
    case FreeBlocks(ptr, count) => ptr / BLOCK_SIZE <= f < ptr / BLOCK_SIZE + count
    case _ => false
  }

  lemma StepKeepsUsed(s: Frames, c: Call, s': Frames, f: nat)
    requires Step(s, c, s') && f < |s.bits| && s.bits[f] && !Releases(c, f)
    ensures |s'.bits| == |s.bits| && s'.bits[f]
  {
  }

  /** A used frame stays used until a call that names it releases it. */
  lemma {:induction false} RunKeepsUsed(ss: seq<Frames>, cs: seq<Call>, i: nat, j: nat, f: nat)
    requires Run(ss, cs) && i <= j <= |cs| && f < |ss[i].bits| && ss[i].bits[f]
    requires forall k | i <= k < j :: !Releases(cs[k], f)
    ensures |ss[j].bits| == |ss[i].bits| && ss[j].bits[f]
  {
    if i < j {
      RunKeepsUsed(ss, cs, i, j - 1, f);
      StepKeepsUsed(ss[j - 1], cs[j - 1], ss[j], f);
    }
  }

  /** Over every run, a frame that was handed out is not handed out again before a call
      has released it. */
  lemma HandedOutOnce(ss: seq<Frames>, cs: seq<Call>, i: nat, j: nat)
    requires Run(ss, cs) && i < j < |cs| && cs[i].AllocateBlock? && cs[j].AllocateBlock?
    requires Allocates(ss[i]) && Allocates(ss[j])
    requires forall k | i < k < j :: !Releases(cs[k], cs[i].addr / BLOCK_SIZE)
    ensures cs[i].addr != cs[j].addr
  {
    var f := FirstClear(ss[i].bits);
    assert Step(ss[i], cs[i], ss[i + 1]) && Step(ss[j], cs[j], ss[j + 1]);
    assert cs[i].addr == f * BLOCK_SIZE;
    RunKeepsUsed(ss, cs, i + 1, j, f);
  }

  /** When frame 0 starts in use and no `FreeBlocks` names it, no run of calls ever hands
      it out: the null address always means that the allocation failed. */
  lemma NullMeansFailure(ss: seq<Frames>, cs: seq<Call>, j: nat)
    requires Run(ss, cs) && j < |cs| && 0 < |ss[0].bits| && ss[0].bits[0]
    requires forall k | 0 <= k < j :: !(cs[k].FreeBlocks? && Releases(cs[k], 0))
    requires cs[j].AllocateBlock?
    ensures cs[j].addr == 0 <==> !Allocates(ss[j])
    ensures 0 < |ss[j + 1].bits| && ss[j + 1].bits[0]
  {
    RunKeepsUsed(ss, cs, 0, j, 0);
    assert Step(ss[j], cs[j], ss[j + 1]);
  }

  /** When `AllocateBlock` hands out frame 0, so that its null result means success: exactly when that
      frame is memory, is free, and the counter does not say that all frames are used. */
  lemma NullOnSuccess(s: Frames)
    requires Sized(s)
    ensures Allocates(s) && AllocatedAddr(s) == 0 <==> 0 < s.max && !s.bits[0] && s.used != s.max
  {
  }

  /** `FreeBlocks` of a range from frame 0 on is what leads there. The allocation that follows returns null,
      succeeds, and reserves frame 0 again. */
  lemma FreedZero(s: Frames, ptr: Word, count: Word, s': Frames)
    requires Sized(s) && 0 < s.max && Step(s, FreeBlocks(ptr, count), s') && Releases(FreeBlocks(ptr, count), 0)
    ensures Allocates(s') && AllocatedAddr(s') == 0 <==> (s.used - count) % TWO32 != s.max
    ensures Allocates(s') ==> Allocated(s').bits[0] && Step(s', AllocateBlock(0), Allocated(s'))
  {
    NullOnSuccess(s');
  }
}
