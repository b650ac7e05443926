/** The physical frame allocator: a packed bit array and a counter, edited in place. */
module PhysicalMem {
  import opened Words
  import opened FrameBits
  import opened FrameSpec

  /** The bit of frame `f` in the packed array. */
  predicate BitOf(m: seq<bv32>, f: nat)
    requires f < 32 * |m|
  {
    Has(m[f / 32], f % 32)
  }

  /** The packed array as one bit per frame. */
  ghost function Unpack(m: seq<bv32>): (bits: seq<bool>)
    ensures |bits| == 32 * |m|
    ensures forall f :: 0 <= f < 32 * |m| ==> bits[f] == BitOf(m, f)
  {
    seq(32 * |m|, f requires 0 <= f < 32 * |m| => BitOf(m, f))
  }

  lemma SetHas(w: bv32, j: nat, k: nat)
    requires j < 32 && k < 32
    ensures Has(w | Mask(j), k) <==> j == k || Has(w, k)
  {
    if j == k { SetSame(w, j); } else { SetOther(w, j, k); }
  }

  lemma ClearHas(w: bv32, j: nat, k: nat)
    requires j < 32 && k < 32
    ensures Has(w & !Mask(j), k) <==> j != k && Has(w, k)
  {
    if j == k { ClearSame(w, j); } else { ClearOther(w, j, k); }
  }

  /** `v` is `m` with the words of frame `bit` changed so that only its bit differs, and is `to`. */
  predicate OneBitChanged(m: seq<bv32>, v: seq<bv32>, bit: nat, to: bool)
    requires bit < 32 * |m|
  {
    && |v| == |m|
    && (forall i | 0 <= i < |m| && i != bit / 32 :: v[i] == m[i])
    && (forall k | 0 <= k < 32 :: Has(v[bit / 32], k) == if k == bit % 32 then to else Has(m[bit / 32], k))
  }

  lemma ChangeWord(m: seq<bv32>, bit: nat, to: bool, w: bv32)
    requires bit < 32 * |m|
    requires forall k | 0 <= k < 32 :: Has(w, k) == if k == bit % 32 then to else Has(m[bit / 32], k)
    ensures OneBitChanged(m, m[bit / 32 := w], bit, to)
  {
    hide Has;
  }

  /** That is what `|=` and `&= ~` do to the packed array. */
  lemma SetOneBit(m: seq<bv32>, bit: nat)
    requires bit < 32 * |m|
    ensures OneBitChanged(m, m[bit / 32 := m[bit / 32] | Mask(bit % 32)], bit, true)
  {
    hide Has, Mask, OneBitChanged;
    var u, j := m[bit / 32], bit % 32;
    forall k | 0 <= k < 32 ensures Has(u | Mask(j), k) == if k == j then true else Has(u, k) {
      SetHas(u, j, k);
    }
    ChangeWord(m, bit, true, u | Mask(j));
  }

  lemma ClearOneBit(m: seq<bv32>, bit: nat)
    requires bit < 32 * |m|
    ensures OneBitChanged(m, m[bit / 32 := m[bit / 32] & !Mask(bit % 32)], bit, false)
  {
    hide Has, Mask, OneBitChanged;
    var u, j := m[bit / 32], bit % 32;
    forall k | 0 <= k < 32 ensures Has(u & !Mask(j), k) == if k == j then false else Has(u, k) {
      ClearHas(u, j, k);
    }
    ChangeWord(m, bit, false, u & !Mask(j));
  }

  /** As a set of frames, exactly one frame changed. */
  lemma UnpackChanged(m: seq<bv32>, v: seq<bv32>, bit: nat, to: bool)
    requires bit < 32 * |m| && OneBitChanged(m, v, bit, to)
    ensures Unpack(v) == Unpack(m)[bit := to]
  {
    forall f | 0 <= f < |Unpack(v)| ensures Unpack(v)[f] == Unpack(m)[bit := to][f] {
      if f / 32 == bit / 32 && f % 32 == bit % 32 { assert f == bit; }
    }
  }

  lemma UnpackAt(m: seq<bv32>, i: nat, k: nat)
    requires i < |m| && k < 32
    ensures Unpack(m)[32 * i + k] == Has(m[i], k)
  {
    assert (32 * i + k) / 32 == i && (32 * i + k) % 32 == k;
  }

  /** A full word is 32 used frames, so the scan may skip it. */
  lemma FullWordUsed(m: seq<bv32>, i: nat)
    requires i < |m| && m[i] == 0xffff_ffff && 32 * i <= FirstClear(Unpack(m))
    ensures 32 * i + 32 <= FirstClear(Unpack(m))
  {
    forall f | 32 * i <= f < 32 * i + 32 ensures Unpack(m)[f] {
      AllOnesHas(f - 32 * i);
      UnpackAt(m, i, f - 32 * i);
    }
  }

  /** The first clear bit of the first word that is not full is the first clear frame. */
  lemma WordScanned(m: seq<bv32>, i: nat, j: nat)
    requires i < |m| && j < 32 && !Has(m[i], j) && 32 * i <= FirstClear(Unpack(m))
    requires forall k :: 0 <= k < j ==> Has(m[i], k)
    ensures FirstClear(Unpack(m)) == 32 * i + j
  {
    hide *;
    UnpackAt(m, i, j);
    forall f | 32 * i <= f < 32 * i + j ensures Unpack(m)[f] {
      UnpackAt(m, i, f - 32 * i);
    }
  }

  /** Stepping the counter by one, `n` times. */
  lemma CounterStep(used: int, n: nat)
    ensures ((used - n) % TWO32 - 1) % TWO32 == (used - (n + 1)) % TWO32
    ensures ((used + n) % TWO32 + 1) % TWO32 == (used + (n + 1)) % TWO32
  {
  }

  /** A frame the scan finds is far from the value that stands for "none". */
  lemma ScanBelow(s: Frames)
    requires Sized(s)
    ensures ScanHits(s) ==> FirstClear(s.bits) * BLOCK_SIZE < TWO32 && FirstClear(s.bits) < 0x10_0000
  {
  }

  lemma CounterFull(max: Word, used: Word)
    ensures (max - used) % TWO32 == 0 <==> used == max
  {
    if max < used { assert (max - used) % TWO32 == max - used + TWO32; }
  }

  class PhysicalMem {
    const memoryArray: array<bv32>
    const maximumBlocks: Word
    var usedBlocks: Word

    ghost function View(): Frames
      reads this, memoryArray
    {
      Frames(Unpack(memoryArray[..]), usedBlocks, maximumBlocks)
    }

    constructor (memoryArray: array<bv32>, maximumBlocks: Word, usedBlocks: Word)
      ensures this.memoryArray == memoryArray && this.maximumBlocks == maximumBlocks
      ensures this.usedBlocks == usedBlocks
    {
      this.memoryArray, this.maximumBlocks, this.usedBlocks := memoryArray, maximumBlocks, usedBlocks;
    }

    method SetBit(bit: nat)
      requires bit < 32 * memoryArray.Length
      modifies memoryArray
      ensures Unpack(memoryArray[..]) == old(Unpack(memoryArray[..]))[bit := true]
    {
      ghost var m := memoryArray[..];
      memoryArray[bit / 32] := memoryArray[bit / 32] | Mask(bit % 32);
      assert memoryArray[..] == m[bit / 32 := m[bit / 32] | Mask(bit % 32)];
      SetOneBit(m, bit);
      UnpackChanged(m, memoryArray[..], bit, true);
    }

    method UnsetBit(bit: nat)
      requires bit < 32 * memoryArray.Length
      modifies memoryArray
      ensures Unpack(memoryArray[..]) == old(Unpack(memoryArray[..]))[bit := false]
    {
      ghost var m := memoryArray[..];
      memoryArray[bit / 32] := memoryArray[bit / 32] & !Mask(bit % 32);
      assert memoryArray[..] == m[bit / 32 := m[bit / 32] & !Mask(bit % 32)];
      ClearOneBit(m, bit);
      UnpackChanged(m, memoryArray[..], bit, false);
    }

    method MarkFree(base: Word, size: Word)
      requires InBitmap(View(), base, size)
      modifies this, memoryArray
      ensures View() == MarkedFree(old(View()), base, size)
    {
      var first, count := base / BLOCK_SIZE, size / BLOCK_SIZE;
      var align := first;
      ghost var s := View();
      var blocks := count;
      while blocks > 0
        invariant 0 <= blocks <= count && align == first + count - blocks
        invariant Unpack(memoryArray[..]) == Fill(s.bits, first, count - blocks, false)
        invariant usedBlocks == (s.used - (count - blocks)) % TWO32
      {
        UnsetBit(align);
        align := align + 1;
        CounterStep(s.used, count - blocks);
        usedBlocks := (usedBlocks - 1) % TWO32;
        blocks := blocks - 1;
        assert Fill(s.bits, first, count - blocks, false)
            == Fill(s.bits, first, count - blocks - 1, false)[align - 1 := false];
      }
      SetBit(0);
    }

    method MarkUsed(base: Word, size: Word)
      requires InBitmap(View(), base, size)
      modifies this, memoryArray
      ensures View() == MarkedUsed(old(View()), base, size)
    {
      var first, count := base / BLOCK_SIZE, size / BLOCK_SIZE;
      var align := first;
      ghost var s := View();
      var blocks := count;
      while blocks > 0
        invariant 0 <= blocks <= count && align == first + count - blocks
        invariant Unpack(memoryArray[..]) == Fill(s.bits, first, count - blocks, true)
        invariant usedBlocks == (s.used + (count - blocks)) % TWO32
      {
        SetBit(align);
        align := align + 1;
        CounterStep(s.used, count - blocks);
        usedBlocks := (usedBlocks + 1) % TWO32;
        blocks := blocks - 1;
        assert Fill(s.bits, first, count - blocks, true)
            == Fill(s.bits, first, count - blocks - 1, true)[align - 1 := true];
      }
      SetBit(0);
    }

    /** `FreeBlocks(ptr, size)`: `size` counts frames. */
    method FreeBlocks(ptr: Word, size: Word)
      requires ptr / BLOCK_SIZE + size <= 32 * memoryArray.Length
      modifies this, memoryArray
      ensures View() == Freed(old(View()), ptr, size)
    {
      var frame := ptr / BLOCK_SIZE;
      ghost var s := View();
      assert Fill(s.bits, frame, 0, false) == s.bits;
      for i := 0 to size
        invariant Unpack(memoryArray[..]) == Fill(s.bits, frame, i, false)
        invariant usedBlocks == s.used
      {
        UnsetBit(frame + i);
        assert Fill(s.bits, frame, i + 1, false) == Fill(s.bits, frame, i, false)[frame + i := false];
      }
      usedBlocks := (usedBlocks - size) % TWO32;
    }

    /** `FreeBlocks()`: the number of free frames according to the counter. */
    function FreeCount(): Word
      reads this
    {
      (maximumBlocks - usedBlocks) % TWO32
    }

    /** The inner loop of the scan: the first clear bit of a word that has one. */
    method FirstClearBit(word: bv32) returns (j: nat)
      requires word != 0xffff_ffff
      ensures j < 32 && !Has(word, j) && forall k :: 0 <= k < j ==> Has(word, k)
    {
      ghost var k := ClearBit(word);
      j := 0;
      while j < 32
        invariant 0 <= j <= k && forall i :: 0 <= i < j ==> Has(word, i)
      {
        if word & Mask(j) == 0 {
          return;
        }
        j := j + 1;
      }
    }

    /** The scan. It counts up to `maximumBlocks`, a number of frames, but steps by words. */
    method FirstFree() returns (frame: Word)
      requires Sized(View()) && ScanStays(View())
      ensures frame == if ScanHits(View()) then FirstClear(View().bits) else 0xFFFF_FFFF
    {
      ghost var bits := Unpack(memoryArray[..]);
      ghost var first := FirstClear(bits);
      var i := 0;
      while i < maximumBlocks
        invariant 0 <= i <= maximumBlocks && 32 * i <= first
      {
        if memoryArray[i] != 0xffff_ffff {
          var j := FirstClearBit(memoryArray[i]);
          WordScanned(memoryArray[..], i, j);
          return i * 4 * 8 + j;
        }
        FullWordUsed(memoryArray[..], i);
        i := i + 1;
      }
      frame := 0xFFFF_FFFF;
    }

    method AllocateBlock() returns (addr: Word)
      requires Sized(View()) && (usedBlocks != maximumBlocks ==> ScanStays(View()))
      modifies this, memoryArray
      ensures View() == Allocated(old(View())) && addr == AllocatedAddr(old(View()))
    {
      ghost var s := View();
      CounterFull(maximumBlocks, usedBlocks);
      if FreeCount() <= 0 {
        return 0;
      }
      var frame := FirstFree();
      ScanBelow(s);
      if frame == 0xFFFF_FFFF {
        return 0;
      }
      assert Allocates(s) && frame == FirstClear(s.bits);
      SetBit(frame);
      addr := frame * BLOCK_SIZE;
      usedBlocks := (usedBlocks + 1) % TWO32;
    }
  }
}
